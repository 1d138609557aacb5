# KaushOS kernel: a verified model

A Dafny model of five pieces of the KaushOS kernel, with proofs about them: the FAT file system layer (FatFs), the
copy-on-write address spaces, the thread dispatcher with its semaphores, the kernel pool on the intrusive circular lists,
and the bit-packed page-range allocator.

Run `dafny verify dfyconfig.toml` (Dafny 4.11).

## Modules

| module | models |
|---|---|
| Common, Bytes | bytes, options, distinct elements; little-endian words in byte sequences |
| FatCodec, FatChains | entries of the FAT as bytes; cluster chains in a table of entries |
| FatVolume | a mounted volume: sector window, mirrored FATs, cluster allocation, free count |
| FatLayout, FatEntry, FatFile | where the bytes of a file lie; directory entries; open files with a sector buffer |
| FatRun | runs of calls on open files: two files at once, and a run that leaves a stray buffer |
| FatTable, FatDir | a directory as a map from names to entries; walking, searching, registering, removing |
| FatBoot, FatMkfs, FatFormat | boot records; the plan of a new volume and what mounting makes of it; writing and mounting |
| Paging, AddressSpace | entries of page tables and what processes see through them; frames, mapping, clone, fault, deletion |
| AddressRun | runs of stores and calls of any processes, and what each sees of its own memory |
| SelfMap | addresses of page table entries through the recursive directory slot |
| DispatcherSpec, Dispatcher | steps of the dispatcher on a world value; the kernel's queues and threads |
| KernelList, PoolSpec, Pool | circular lists of nodes; the blocks of a pool as a sequence; the pool on a list |
| Bitmap | bits in 32-bit words, and the ranges of system pages |

## How the model is built

Code that changes state is a class whose methods take the same steps as the C functions; loops are loops. What a method
does is stated as a change of an abstract value (the logical disk, the table of FAT entries, the bytes of a file, what a
process sees, a world of threads, a list of pool blocks, a sequence of booleans), and the properties are proved about these
values. Three values carry most of the proofs:

- The logical disk is the medium overlaid by the dirty window. `FatVolume.Volume.MoveWindow` does not change it.
- A volume is a `Forest`: a set of disjoint chains that own all clusters in use. A file or directory owns one of them and
  names the others in a ghost field, so that every operation on it says what happened to the others.
- `Look` is what a process sees at a page: nothing, or contents with the right to write at once or after a page fault.
  Cloning and page faults do not change it for any process.

Sectors have 512 bytes, `_MAX_SS` being 512. Words of 32 bits wrap where the C code lets them: sums of sector numbers in
mounting, the sizes in `f_mkfs`, the free count, the size of a pool request, the test before a pool block is split. A
`Status` of `Halt` stands for KeBugCheck and failed assertions, after which the machine does not go on.

## Where the code does not meet its promise

- The split test of the pool (`KaushOS/kern/mm/pool.c:183`) subtracts 512 from an unsigned size and wraps for smaller
  blocks. `PoolSpec.CarveKeeps` gives the exact condition under which allocation keeps the pool in order;
  `PoolSpec.BrokenIsReached` shows that a short run of calls leaves it.
- `f_mkfs` tests for a volume that is too small before it aligns the areas (`KaushOS/kern/fs/ff.c:3780`), and computes the
  FAT size in 32 bits. `FatMkfs.Recovered` gives the exact condition under which mounting recovers what was planned;
  `FatMkfs.TooSmallIsMade` and `FatMkfs.WrappedIsMade` are disks outside it. On FAT32 a volume may have so many clusters
  that the end mark is one of them (`FatMkfs.EndMarkIsNoCluster`, `FatMkfs.EndMarkIsMade`).
- The size check of mounting (`KaushOS/kern/fs/ff.c:2114-2121`) wraps in 32 bits on FAT32. `FatMkfs.BigFatEnough` says for
  which numbers of entries it is enough, `FatMkfs.LargeFatEnough` that it is for such records, and
  `FatMkfs.NoFatIsAccepted` is an accepted record without any FAT.
- A full scan for the free count counts the reserved entries, and on FAT12 keeps a partial count when it finds an entry 1
  (`KaushOS/kern/fs/ff.c:3186-3223`). `FatVolume.Volume.GetFree` gives the exact condition for a right count;
  `FatVolume.PartialCountIsKept` and `FatVolume.ReservedAreCounted` are calls with a wrong one.
- A link to a cluster past 0x0FFFFFFF is cut to 28 bits, and may become 0. `FatVolume.Volume.CreateChain` says exactly when
  the free count stays right.
- The padded size of a pool request may wrap, exactly as `PoolSpec.NeedIsEnough` says; `PoolSpec.WrappedIsServed` is a
  request that gets a block smaller than asked.
- `BmBitmapScanAndFlip` says that it returns 0 for an empty group; it returns the start, so it keeps its word exactly if
  the start is 0 (`Bitmap.Bits.ScanAndFlip`, with a call in `Bitmap.EmptyGroupIsAtStart`).
- `MmFreePoolWithTag` means to refuse a block that is not allocated (`KaushOS/kern/mm/pool.c:218-220`), but its conditional
  binds weaker than the alternatives in front of it. `PoolSpec.ChecksAgree` says when the check does what is meant, in a
  pool in order exactly if the block is in use or the tag is not 0; `PoolSpec.FreePasses` is a free block that passes.
- `f_truncate` does not write the buffer back (`KaushOS/kern/fs/ff.c:3260-3286`), so a dirty buffer may later be written
  to a cluster that was given up. `FatFile.File.Truncate` says exactly when the file is in order afterwards,
  `FatFile.StrayFlush` what the later write does otherwise, and `FatRun.StrayIsReached` is a run from any file in order.
  A clean buffer of a sector given up is right until another file writes that sector (`FatFile.CleanStray`).
- The idle thread gets its priority after it was queued (`KaushOS/kern/ps/process.c:1107-1109`), so it is in the queue of
  normal priority until it first runs (`DispatcherSpec.BootIsEarly`). The invariant holds exactly from then on
  (`DispatcherSpec.SafeStep`, `DispatcherSpec.InOrderOnceIdleRan`); all else is safe meanwhile. That no ready thread
  outranks the running one holds after Schedule, and when a thread blocks or ends, exactly under the conditions of
  `DispatcherSpec.ScheduleRunsHighest` and `DispatcherSpec.LeaveRunsHighest`.

## Model

| member | source | states |
|---|---|---|
| FatCodec.GetPut | KaushOS/kern/fs/ff.c:611-715 | Reading FAT entry d after entry c was written gives, for FAT12, FAT16 and FAT32: the value cut to the entry width if d is c, else what was there before, the FAT12 neighbour in the same byte included. |
| FatCodec.PutKeeps | KaushOS/kern/fs/ff.c:671-706 | A write leaves every byte outside the entry as it was; the top four bits of a FAT32 entry are OR-ed with those of the value, so a value up to 0x0FFFFFFF keeps them. |
| FatCodec.Or4Bits | KaushOS/kern/fs/ff.c:705-706 | Bit for bit, what that OR is. |
| FatCodec.EntriesPut | KaushOS/kern/fs/ff.c:657-715 | On the table of all entries a write is the update of one element. |
| Bytes.LdSlice | KaushOS/kern/fs/ff.h:624-627 | A word or double word read from a sector is the one at that place of the FAT. |
| FatChains.ChainUnique | KaushOS/kern/fs/ff.c:787-850 | A chain is fixed by its first cluster. |
| FatChains.ChainAcyclic | KaushOS/kern/fs/ff.c:787-850 | A chain visits no cluster twice. |
| FatChains.FreedStep | KaushOS/kern/fs/ff.c:740-776 | One round of freeing: the clusters freed so far and those still to come are together what is freed, the number of zero entries grows by one, and the walk ends with exactly these entries zero; on any table, cyclic ones included. |
| FatChains.FreedChain | KaushOS/kern/fs/ff.c:740-776 | Freeing from the first cluster of a chain frees exactly the chain. |
| FatChains.DropChain | KaushOS/kern/fs/ff.c:722-780 | Freeing a chain takes it out of the set of disjoint chains and leaves the others chains. |
| FatChains.NewChain | KaushOS/kern/fs/ff.c:795-850 | A free cluster marked as an end joins the set as a new chain. |
| FatChains.StretchChain | KaushOS/kern/fs/ff.c:801-835 | Linking one free cluster behind a chain replaces that chain by the longer one in the set; the others stay. |
| FatChains.TruncateChain | KaushOS/kern/fs/ff.c:3260-3286 | Cutting a chain behind its k-th cluster and freeing the rest keeps its front as a chain in the set, and the others. |
| FatChains.CutTail | KaushOS/kern/fs/ff.c:3274-3282 | Marking the k-th cluster as the end and freeing from the next one is truncation. |
| FatChains.LinkedZeros | KaushOS/kern/fs/ff.c:830-842 | Allocation uses up exactly one zero entry, unless the link written to the previous cluster is cut to 0. |
| FatChains.ZeroedCount | KaushOS/kern/fs/ff.c:740-776 | Freeing distinct clusters in use raises the number of zero entries by as many. |
| FatChains.AllZerosSplit | KaushOS/kern/fs/ff.c:3203-3219 | A count over all entries is the count over the clusters plus the zeros among the two reserved entries. |
| FatChains.FirstFreeIs | KaushOS/kern/fs/ff.c:811-828 | The first free cluster behind a hint: nothing is free between the two, or from behind the hint to the end and from the start to the cluster. |
| FatChains.OneOutcome | KaushOS/kern/fs/ff.c:811-828 | The search has one outcome: with a first free cluster there is no other, and neither is the disk full nor an entry 1 met. |
| FatChains.ZerosBelowAll | KaushOS/kern/fs/ff.c:3188-3200 | A count that stops early is the count of all zero entries if and only if none follows. |
| FatVolume.FlushedKeepsMirrors | KaushOS/kern/fs/ff.c:528-548 | A write-back to the first FAT reaches the second copy too: the copies stay equal. |
| FatVolume.FlushedReaches | KaushOS/kern/fs/ff.c:528-548 | A FAT sector written back is in both copies, whether or not they agreed before. |
| FatVolume.Volume.constructor | KaushOS/kern/fs/ff.c:2118-2146 | A mounted volume shows the medium as it is, whether or not its FAT copies agree, with no sector cached and the allocation information that mounting found. |
| FatVolume.Volume.MoveWindow | KaushOS/kern/fs/ff.c:520-555 | The logical disk (the medium overlaid by the dirty window on every FAT copy) does not change; the window then holds the sector asked for, coherent with the medium; sector 0 only writes back. |
| FatVolume.Volume.WriteBack | KaushOS/kern/fs/ff.c:528-548 | The medium becomes the logical disk, and the window is clean. |
| FatVolume.Volume.GetFat | KaushOS/kern/fs/ff.c:611-650 | The entry of the cluster on the logical disk, 1 for a number without one; nothing is changed. |
| FatVolume.Volume.PutFat | KaushOS/kern/fs/ff.c:657-715 | Exactly one entry of the FAT changes, to the value cut to its width, for any value; nothing outside the FAT copies changes; a number without an entry is refused and changes nothing. |
| FatVolume.Volume.RemoveChain | KaushOS/kern/fs/ff.c:722-780 | On every FAT content: terminates, sets to zero exactly the clusters reached, raises the cached free count, if it is known, by as many, and reports an error if and only if the first cluster is invalid or the walk ends at an entry 1. |
| FatVolume.Volume.FindFree | KaushOS/kern/fs/ff.c:811-828 | The first free cluster behind the start in cyclic order; 0 only when none is free, 1 only when an entry 1 comes before the first free one. |
| FatVolume.Volume.CreateChain | KaushOS/kern/fs/ff.c:787-850 | The cluster that follows; else the first free cluster behind the hint, marked as end and linked; 0 exactly when none is free, 1 when the chain or the search meets an entry that cannot be; the hint is updated, and the free count stays exact if and only if it is unknown, nothing changed, there was no link to write, or the link is not cut to 0; a known count is lowered by one and stays known where it is exact. |
| FatVolume.Volume.CountByCluster | KaushOS/kern/fs/ff.c:3188-3200 | The number of zero entries of clusters, or an error exactly when an entry is 1. |
| FatVolume.Volume.CountBySector | KaushOS/kern/fs/ff.c:3203-3219 | The raw scan counts the zero entries, the reserved ones included, so it agrees with asking cluster by cluster when these are not zero. |
| FatVolume.Volume.GetFree | KaushOS/kern/fs/ff.c:3152-3235 | The number of free clusters, cached or counted, and what is cached: on FAT12 the count up to the first entry 1, else the count with the reserved entries. It is the number of free clusters if and only if no free cluster follows that entry, or no reserved entry is zero. |
| FatVolume.PartialCountIsKept | KaushOS/kern/fs/ff.c:3186-3224 | Two calls on a FAT12 volume with an entry 1 and two free clusters behind it: the first fails, and the second says that none is free. |
| FatVolume.ReservedAreCounted | KaushOS/kern/fs/ff.c:3203-3224 | A call on a FAT16 volume with one free cluster and a reserved entry 0 that says two. |
| FatVolume.Volume.ClearSectors | KaushOS/kern/fs/ff.c:943-957 | The sectors of a new directory cluster become zero through the window, and nothing else changes. |
| FatVolume.Volume.Store | KaushOS/kern/fs/ff.c:1421-1425 | Bytes stored in the window past the FATs change just these bytes of the logical disk. |
| FatVolume.Volume.Sync | KaushOS/kern/fs/ff.c:561-589 | The medium becomes the logical disk, on FAT32 with the free-cluster information in its sector, and the FAT stays. |
| FatVolume.FsInfoReads | KaushOS/kern/fs/ff.c:568-582 | What mounting reads from the FSInfo sector is what was written. |
| FatLayout.SectInjective | KaushOS/kern/fs/ff.c:596-605 | Different sectors of a file, and sectors of files without a common cluster, are different sectors of the disk. |
| FatLayout.SectRange | KaushOS/kern/fs/ff.c:596-605 | The sectors of valid clusters lie in the data area. |
| FatLayout.NoSector | KaushOS/kern/fs/ff.c:596-605 | The sector is 0 for exactly the numbers that name no cluster. |
| FatLayout.FlushSame | KaushOS/kern/fs/ff.c:2529-2534 | Writing the dirty buffer back changes no byte of the file. |
| FatLayout.DirectWrite | KaushOS/kern/fs/ff.c:2540-2562 | Whole sectors written past the buffer replace just these bytes of the file. |
| FatLayout.BufferedWrite | KaushOS/kern/fs/ff.c:2579-2590 | Bytes stored in the buffer replace just these bytes of the file. |
| FatLayout.ReadRun | KaushOS/kern/fs/ff.c:2417-2436 | Whole sectors read past the buffer, with a dirty buffer laid over, are the bytes of the file. |
| FatEntry.TouchedReads | KaushOS/kern/fs/ff.c:2628-2633 | First cluster, size and time read back from a rewritten directory entry, the archive bit is set, and everything else in it is kept. |
| FatFile.File.Open | KaushOS/kern/fs/ff.c:2351-2363 | A file object on a chain with room for its size is in order, at offset 0, with nothing to write back. |
| FatFile.File.NextCluster | KaushOS/kern/fs/ff.c:2504-2523 | Following or stretching the chain changes no byte of the file; at the end of a full disk nothing changes. |
| FatFile.File.WriteStep | KaushOS/kern/fs/ff.c:2498-2591 | One round of the write loop replaces a non-empty front of the data at the file pointer, or finds the disk full. |
| FatFile.File.Write | KaushOS/kern/fs/ff.c:2474-2598 | The contents are the old ones with exactly data[..bw] put at the file pointer; bw is all of it, or the disk is full and the clusters of the file end at the pointer, or 0 if the file could reach 4 GB; only free clusters are taken, none is lost, and nothing on the disk changes outside the FAT copies and the sectors of the file. |
| FatFile.File.Read | KaushOS/kern/fs/ff.c:2372-2467 | Exactly contents[fptr..fptr + min(btr, fsize - fptr)], and the contents and the FAT stay. |
| FatFile.File.Seek | KaushOS/kern/fs/ff.c:2830-3026 | Moves the pointer to the offset, cut to the size without write access; in write mode the old contents are a prefix of the new, and the pointer stops only at the end of the last cluster of a full disk; at a sector edge the buffer stays as it is; the entry must be written if and only if it had to be or the file grew. |
| FatFile.File.Truncate | KaushOS/kern/fs/ff.c:3241-3292 | The contents are cut at the file pointer; the clusters behind it, and only these, become free, and nothing changes outside the FAT copies; the file is in order afterwards if and only if its buffer is not dirty with a sector given up. |
| FatFile.File.Sync | KaushOS/kern/fs/ff.c:2604-2642 | The medium alone holds the contents and the directory entry, in which first cluster, size, time and the archive bit are new; the name and the rest of the entry's first 20 bytes, and every other byte of its sector, are kept; on FAT32 the FSInfo sector gets the free count and the last cluster if they had changed; nothing else on the disk changes but the sectors of the file; the file is in order afterwards unless the entry was written over the sector that its clean buffer names. |
| FatFile.OwnsMore | KaushOS/kern/fs/ff.c:787-850 | A file that takes a free cluster owns the longer chain, and the other chains are as before. |
| FatFile.OwnsLess | KaushOS/kern/fs/ff.c:3260-3286 | A file that gives up the tail of its chain owns the front, and the other chains are as before. |
| FatFile.OwnsNone | KaushOS/kern/fs/ff.c:3264-3270 | A file cut at offset 0 gives its whole chain up. |
| FatFile.AfterCreate | KaushOS/kern/fs/ff.c:787-850 | What create_chain returns behind the first k clusters of a file: the next cluster, or a new last one, or 0 on a full disk. |
| FatFile.AfterSync | KaushOS/kern/fs/ff.c:2624-2637 | The directory entry and the FSInfo sector do not touch the bytes of the file. |
| FatFile.StrayFlush | KaushOS/kern/fs/ff.c:2529-2534 | Writing the buffer back changes data of the file only, if and only if the sector is still the file's; after f_truncate a dirty one may not be. |
| FatFile.CleanStray | KaushOS/kern/fs/ff.c:2410-2456 | A clean buffer stays right if and only if its sector does not change; after f_truncate another file may change it. |
| FatFile.OtherFile | KaushOS/kern/fs/ff.c:2474-2642 | Work on one file, f_sync included, leaves every other file alone: its chain, its bytes, and its buffer, dirty or clean, stays in order if it is not stray. |
| FatFile.CutZeros | KaushOS/kern/fs/ff.c:3260-3286 | What f_truncate gives up becomes free, cluster by cluster. |
| FatRun.AsFarAsItFits | KaushOS/kern/fs/ff.c:2474-2523 | A pointer that stops only when the disk is full and the clusters of the file end there gets to its target, or as far as the clusters of the file and all free ones reach. |
| FatRun.Serve | KaushOS/kern/fs/ff.c:2372-3292 | A call on one of two open files of a volume does to it what it may do, and the user of the other sees nothing of it; both stay in order, and all else on the volume stays as it was. |
| FatRun.Run | KaushOS/kern/fs/ff.c:2372-3292 | Two open files of a volume, any writes, reads, seeks, truncations and syncs on them in any order: each is a byte sequence of its own, of which every call reads or changes exactly what it should. A write stores, and a seek moves, as far as the clusters of the file and the free ones reach; clusters of the file and free ones are conserved by its calls. All other chains and everything before the clusters keep their bytes, but for the FAT copies, the FSInfo sector and the sectors of the directory entries synced. The run ends early only at a truncation that would leave a stray buffer. |
| FatRun.CuttableIs | KaushOS/kern/fs/ff.c:3241-3292 | Whether f_truncate leaves a buffer of a sector given up can be told beforehand from the fields of the file and the links in the FAT. |
| FatRun.WriteFront | KaushOS/kern/fs/ff.c:2474-2598 | A byte written at the front of a file, with the pointer moved back to it, is in the dirty buffer. |
| FatRun.StrayIsReached | KaushOS/kern/fs/ff.c:3241-3292 | From every file in order, on a disk that is not full: write at the front, seek back, truncate. The file is not in order then, and the next write-back puts the byte into a free cluster, which changes it unless the byte was there. |
| FatTable.FindIs | KaushOS/kern/fs/ff.c:1179-1222 | The search, stopping at the first entry never used, finds the first entry with the name, and none only if there is none. |
| FatTable.EntryFormat | KaushOS/kern/fs/ff.c:1180-1218 | The bytes of an entry that decide: 0 and 0xE5 in the first for the end and deleted ones, bit 3 of byte 11 for the label, the name in the first eleven; a new entry holds the name and zeros. |
| FatTable.StretchKeeps | KaushOS/kern/fs/ff.c:941-963 | Zero entries behind the table keep the map of names, and names stay unique. |
| FatTable.RegisterStretched | KaushOS/kern/fs/ff.c:1395-1425 | Registering a name that is not there, in the first blank entry of the table, stretched or not, adds the name with a fresh entry and keeps all others; names stay unique and never-used entries last. |
| FatTable.RemoveDeletes | KaushOS/kern/fs/ff.c:1462-1473 | Removing the entry found for a name deletes the name and keeps all others. |
| FatTable.RewriteKeeps | KaushOS/kern/fs/ff.c:2628-2633 | An entry rewritten by f_sync is found under its name as before, and so are all others; names stay unique. |
| FatTable.CleanStays | KaushOS/kern/fs/ff.c:941-963 | Everything past the first entry never used stays zero, through stretching, registering and removing. |
| FatDir.EntriesApart | KaushOS/kern/fs/ff.c:857-897 | Different entries lie at different places of the disk. |
| FatDir.Dir.StartsAt | KaushOS/kern/fs/ff.c:864-872 | A directory starts at its first cluster; first cluster 0 means the root directory, which starts at the cluster of the boot record on FAT32 and has no clusters else. |
| FatDir.RootEntryIs | KaushOS/kern/fs/ff.c:874-900 | Entry i of the root directory of FAT12 and FAT16 is the 32 bytes at 32 * i behind its first sector. |
| FatDir.ClusterEntryIs | KaushOS/kern/fs/ff.c:882-900 | The e-th entry in the k-th cluster of a directory's chain is the 32 bytes at 32 * e behind the start of that cluster. |
| FatDir.EntryStored | KaushOS/kern/fs/ff.c:1421-1425 | Storing in one entry changes that entry of the table only. |
| FatDir.TableStretched | KaushOS/kern/fs/ff.c:941-963 | A cluster added and cleared stretches the table by entries of zeros. |
| FatDir.SyncKeepsTable | KaushOS/kern/fs/ff.c:2604-2642 | After f_sync of a file the table of every directory has the rewritten entry in its place and all others as they were, and every name is found where it was. |
| FatDir.PlaceAfter | KaushOS/kern/fs/ff.c:917-969 | Cluster and sector of the next entry, case by case as the code tells the cases apart. |
| FatDir.Dir.Sdi | KaushOS/kern/fs/ff.c:857-897 | Stands on entry idx, at its cluster, sector and offset; fails exactly when the table has no such entry. |
| FatDir.Dir.Stretch | KaushOS/kern/fs/ff.c:934-958 | One cluster more, filled with zeros: the table is the old one with entries of zeros behind it; or the disk is full and nothing changes. |
| FatDir.Dir.Next | KaushOS/kern/fs/ff.c:903-973 | From entry i to where Sdi finds entry i + 1; at the end of the table stretches it if asked, else fails without a change; stops at index 65535; the index stays on failure. |
| FatDir.Dir.Find | KaushOS/kern/fs/ff.c:1158-1227 | Stands on the entry of the name, or reports that there is none, exactly as the table says. |
| FatDir.Dir.SeekBlank | KaushOS/kern/fs/ff.c:1395-1410 | Stands on the first blank entry, if need be one of a cluster added. |
| FatDir.Dir.Register | KaushOS/kern/fs/ff.c:1394-1425 | Adds the name to the directory's map and keeps all others; no other chain is touched, and nothing on the disk outside the FAT copies and the sectors of the table. |
| FatDir.Dir.Remove | KaushOS/kern/fs/ff.c:1462-1473 | Deletes the name from the directory's map and keeps all others; nothing on the disk changes outside the table. |
| FatBoot.RecordFields | KaushOS/kern/fs/ff.c:3838-3890 | The fields that mounting reads from a boot record are those of the plan it was made from. |
| FatBoot.RecordRest | KaushOS/kern/fs/ff.c:3838-3890 | The fields that mounting does not read, each at its place: jump and name, media byte, geometry, sectors before the volume, drive, signature, serial number, label and type, and the place of the backup. |
| FatMkfs.Accepted | KaushOS/kern/fs/ff.c:2039-2118 | What mounting takes from every record that it accepts, the place of the root directory included: behind all copies of the FAT, or at the cluster named on FAT32. |
| FatMkfs.AcceptedExactly | KaushOS/kern/fs/ff.c:2039-2121 | Which records are accepted, if and only if, field by field of the record. |
| FatMkfs.SmallFatEnough | KaushOS/kern/fs/ff.c:2100-2121 | On FAT12 and FAT16 the size check puts every accessed byte of an accepted record into the first FAT. |
| FatMkfs.BigFatEnough | KaushOS/kern/fs/ff.c:2114-2121 | On FAT32 the size check does so exactly when the byte count of the entries does not wrap in 32 bits. |
| FatMkfs.LargeFatEnough | KaushOS/kern/fs/ff.c:2100-2121 | So it does for an accepted FAT32 record whose byte count of the entries does not wrap. |
| FatMkfs.NoFatIsAccepted | KaushOS/kern/fs/ff.c:2039-2121 | A concrete FAT32 record with 0x40000000 entries and a FAT of no sectors, which mounting accepts. |
| FatMkfs.EndMarkIsNoCluster | KaushOS/kern/fs/ff.c:830 | The end mark reads back as no valid cluster: always on FAT12 and FAT16, on FAT32 exactly up to 0x0FFFFFFF entries. |
| FatMkfs.MountedIsOk | KaushOS/kern/fs/ff.c:2039-2141 | A mounted volume that lies on its medium, whose sums do not wrap and whose FSInfo sector is a reserved one meets all that the FAT functions need. |
| FatMkfs.PlanSizes | KaushOS/kern/fs/ff.c:3738-3801 | The sizes of every plan: sub-type by cluster count, FAT size by formula plus alignment, allocation unit a power of two up to 128 sectors. |
| FatMkfs.GivesUp | KaushOS/kern/fs/ff.c:3736-3801 | f_mkfs gives up if and only if the disk has less than 128 sectors, the areas and one cluster do not fit, or too few clusters are left behind the aligned areas for the FAT type. |
| FatMkfs.FatIsLeast | KaushOS/kern/fs/ff.c:3764-3774 | The FAT planned before alignment is the least that holds the entries of c + 2 clusters. |
| FatMkfs.AlignIs | KaushOS/kern/fs/ff.c:3764-3788 | The mask that aligns an area rounds it up to a multiple of the block size. |
| FatMkfs.SingleBit | KaushOS/kern/fs/ff.c:3732-3733 | The test of the code, a & (a - 1) == 0, holds of exactly these. |
| FatMkfs.PowersOfTwo | KaushOS/kern/fs/ff.c:3732-3733 | The allocation units that are taken as they are, zero excepted, are the powers of two. |
| FatMkfs.ClusterSizeIs | KaushOS/kern/fs/ff.c:3724-3746 | The sectors per cluster, for every allocation unit asked for and for every size of a volume. |
| FatMkfs.PlanIsAligned | KaushOS/kern/fs/ff.c:3764-3798 | The data area begins at the first erase block behind the areas before it, and right behind them when no usable block size is known. |
| FatMkfs.Recovered | KaushOS/kern/fs/ff.c:3738-3895 | Mounting the boot record that was written recovers sub-type, cluster count, FAT size and area offsets, with every entry in the FAT, if and only if a cluster fits behind the aligned areas and the FAT size computation did not wrap; for every disk size, partition rule, allocation unit and block size. |
| FatMkfs.MeantIsOk | KaushOS/kern/fs/ff.c:3738-3801 | The recovered volume meets all that the FAT functions need, and says exactly when the end mark is no cluster; for every block size the disk driver may report. |
| FatMkfs.TooSmallIsMade | KaushOS/kern/fs/ff.c:3780-3799 | A disk of 512 sectors passes the size test although no cluster is left after alignment. |
| FatMkfs.WrappedIsMade | KaushOS/kern/fs/ff.c:3764-3776 | With clusters of one sector on 2 TB the FAT size computation wraps. |
| FatMkfs.EndMarkIsMade | KaushOS/kern/fs/ff.c:3738-3801 | With clusters of one sector on 256 GB the end mark is a cluster of the volume made. |
| FatFormat.MkFs | KaushOS/kern/fs/ff.c:3702-3955 | Fails exactly when it finds no plan or a write goes past the medium; every sector of the disk is as the plan says, as far as it was written, and all others are kept. |
| FatFormat.WriteHead | KaushOS/kern/fs/ff.c:3803-3915 | Partition table, boot record with backup, and first FAT sector are written, as far as the medium goes, and nothing else. |
| FatFormat.WriteAreas | KaushOS/kern/fs/ff.c:3916-3952 | The FAT area and root directory are cleared, as far as the medium goes, and nothing else. |
| FatFormat.PartitionReads | KaushOS/kern/fs/ff.c:3804-3836 | The partition table leads to sector 63 and is no boot record itself; its entry has the size of the volume and the type for its sub-type and size, and there is no other entry. |
| FatFormat.PartitionEnds | KaushOS/kern/fs/ff.c:3806-3832 | The partition's first and last cylinder, head and sector. |
| FatFormat.MadeMounts | KaushOS/kern/fs/ff.c:1971-2153 | Mounting the disk that f_mkfs left finds the volume that was meant exactly under the condition of FatMkfs.Recovered, on FAT32 with the right free count. |
| FatFormat.BackupIsThere | KaushOS/kern/fs/ff.c:3893-3952 | On FAT32 the backup of the boot record and the FSInfo sector are where the record says, with a copy of the latter behind the backup. |
| FatFormat.FreshFat | KaushOS/kern/fs/ff.c:3896-3951 | The free count written for FAT32 is the number of zero entries of the new FAT, whose only chain, on FAT32, is the root directory. |
| FatFormat.AreasMade | KaushOS/kern/fs/ff.c:3893-3952 | The rest of the FAT and the root directory are zero; all behind them, and all before the FAT but the partition table, the boot record and on FAT32 sectors 1, 6 and 7 of the volume, is as it was. |
| FatFormat.MountMade | KaushOS/kern/fs/ff.c:2123-2144 | Mounting what f_mkfs made gives a volume in order, with an exact free count, known on FAT32, and, when the end mark is no cluster, the chains of an empty file system. |
| FatFormat.RootIsLaid | KaushOS/kern/fs/ff.c:2087-2115 | On FAT12 and FAT16 a mounted volume in order has its root table behind the FAT copies and before the clusters, where directories look for it. |
| FatFormat.MountReadsInfo | KaushOS/kern/fs/ff.c:2127-2138 | Mounting takes the free count and the last cluster that f_sync wrote. |
| AddressSpace.Memory.constructor | KaushOS/kern/mm/mm.c:357-505 | After boot the free list holds exactly the frames the kernel does not keep. |
| AddressSpace.Memory.AllocatePFN | KaushOS/kern/mm/mm.c:182-199 | The first free frame leaves the free list, unnamed by any entry; none if the list is empty. |
| AddressSpace.Memory.DecReference | KaushOS/kern/mm/mm.c:216-221 | The last reference puts the frame at the head of the free list. |
| AddressSpace.Memory.RemovePage | KaushOS/kern/mm/mm.c:542-590 | The entry is gone, its frame has one reference less, and the accounts are right. |
| AddressSpace.Memory.InsertPage | KaushOS/kern/mm/mm.c:592-680 | The page is mapped, over what was there and with a page table if need be; no process sees anything else change; nothing happens if the frame is there already, or without a frame for the table. |
| AddressSpace.Memory.MapSegment | KaushOS/kern/mm/mm.c:682-757 | All pages of the range are mapped with the rights asked for, and nothing else changes. It succeeds if there is a frame for each page and each missing page table, and if nothing was mapped there only then. |
| AddressSpace.Memory.VirtualFree | KaushOS/kern/mm/mm.c:716-726 | Succeeds exactly when all pages of the range are mapped; they are unmapped then, and nothing else is. |
| AddressSpace.Memory.MapPageTemp | KaushOS/kern/mm/mm.c:1216-1260 | The frame is mapped at the first free place of the temporary slot; no process sees a change; succeeds if and only if there is a place, and a frame for the page table if that is missing. |
| AddressSpace.Memory.UnMapPageTemp | KaushOS/kern/mm/mm.c:1205-1214 | The temporary mapping is gone; no process sees a change. |
| AddressSpace.Memory.Create | KaushOS/kern/mm/mm.c:1485-1520 | A new directory with an empty user half, or no memory and no change. |
| AddressSpace.Memory.ClonePage | KaushOS/kern/mm/mm.c:1440-1471 | The clone's page shows what the original shows, and both are copy-on-write if the original was writable. |
| AddressSpace.Memory.Clone | KaushOS/kern/mm/mm.c:1372-1483 | After success the new process sees everything the cloned one sees, and no process, the cloned one included, sees a change; the accounts are right even when it stops for lack of frames; it gets page tables only where the old process has them, and on success for all of these; whether it succeeds, runs out of memory or halts is told exactly by the free frames, the page tables of the old process and the room for temporary mappings, and on success it has taken exactly these frames. |
| AddressSpace.Memory.Delete | KaushOS/kern/mm/mm.c:1271-1339 | All entries of the process are gone, its directory too; the other processes see what they saw. |
| AddressSpace.Memory.CopyPage | KaushOS/kern/mm/mm.c:1590-1613 | The faulting process gets a writable copy of its own; no process sees a change; succeeds if and only if there is a temporary place and the frames for it and the copy. |
| AddressSpace.Memory.PfHandler | KaushOS/kern/mm/mm.c:1522-1616 | A fault on a copy-on-write page makes it writable without a visible change; it succeeds if and only if the page is copy-on-write and, where its frame is shared, the copy fits; any other fault halts. |
| AddressSpace.Memory.UserWrite | KaushOS/kern/mm/mm.c:1522-1616 | A store, with the fault it may cause, shows at its page in its process and nowhere else; it succeeds if and only if the process may write there and, where the page is read-only and its frame shared, the copy fits. |
| AddressSpace.Memory.CloneThenDelete | KaushOS/kern/mm/mm.c:1271-1483 | Conservation: creating, cloning, complete or stopped for lack of frames, and deleting gives every frame back, but for one page table for temporary mappings of the parent. |
| AddressRun.Run | KaushOS/kern/mm/mm.c:682-1616 | Any stores, mappings, unmappings, creations, clones and deletions of any processes in any order: after each the accounts and tables are in order and every process sees what that call says; the run stops only at a call that nobody can make or that halts, for the reason given, which is exact unless a page is mapped over another. |
| AddressRun.Isolated | KaushOS/kern/mm/mm.c:682-1616 | Over such a run a page that is not mapped anew is what the calls of its own process make of it, as if the process had memory of its own; clones made of it do not show. |
| AddressRun.ElsewhereIsNothing | KaushOS/kern/mm/mm.c:682-1616 | So a run of other processes, clones of this one included, does not change what it sees. |
| AddressRun.ForkThenRun | KaushOS/kern/mm/mm.c:1372-1483 | Fork isolation: the clone succeeds if and only if the frames suffice, and then, after any later calls of all processes, parent and child each see the parent's old memory with their own calls. |
| Paging.BooksEnter | KaushOS/kern/mm/mm.c:592-680 | An entry takes over a reference: every count is the number of entries naming the frame, and the free list holds exactly the frames with count 0, once each. |
| Paging.BooksRelease | KaushOS/kern/mm/mm.c:216-221 | The same when a reference is given up. |
| Paging.ShapeShared | KaushOS/kern/mm/mm.c:1440-1471 | Sharing a page keeps the invariant that a user page mapped writable is mapped by exactly one entry. |
| Paging.ShapeRecolor | KaushOS/kern/mm/mm.c:1576-1582 | So does making the only mapping of a page writable again. |
| Paging.LookWrite | KaushOS/kern/mm/mm.c:1522-1616 | A store to a page mapped writable shows at this page only. |
| Paging.GivenBack | KaushOS/kern/mm/mm.c:1271-1483 | After creation, cloning and deletion each frame is named as often as before, but for the new table entry of the parent. |
| SelfMap.PteAddressReaches | KaushOS/kern/mm/mm.c:85 | Walking the address of MmGetPteAddress reaches the page table entry of the address. |
| SelfMap.PdeAddressReaches | KaushOS/kern/mm/mm.c:86 | Walking the address of MmGetPdeAddress reaches the directory entry of the address. |
| SelfMap.PdeIsPteOfPte | KaushOS/kern/mm/mm.c:85-86 | MmGetPdeAddress is MmGetPteAddress twice. |
| SelfMap.AddressComesBack | KaushOS/kern/mm/mm.c:87 | MiGetVitualAddressFromPTE inverts MmGetPteAddress up to the offset in the page, in 32-bit arithmetic. |
| SelfMap.RemovingTableClearsSlot | KaushOS/kern/mm/mm.c:1325 | Removing the page at the address of a page table clears exactly that directory entry. |
| DispatcherSpec.OnePlace | KaushOS/kern/ke/scheduler.c:357-454 | Every live thread is in exactly one place: running, in the ready queue of its priority, or in one wait list; all others are nowhere. |
| DispatcherSpec.GrantedInOrder | KaushOS/kern/ke/wait.c:50-222 | The first k that asked for a semaphore have got it, in order, where k is initial count plus releases, or everybody has: no overtaking and no lost wakeup. |
| DispatcherSpec.RunRecords | KaushOS/kern/ke/wait.c:50-222 | What is recorded of a semaphore over a run are the calls: those that wait, in order, and the number of releases. |
| DispatcherSpec.SemaphoreServes | KaushOS/kern/ke/wait.c:50-222 | A semaphore made with a count, over any run of events: the first that waited for it have it, in the order of their calls and as many as the count and the releases allow; all others, and only they, are blocked on it; its state is what is left. |
| DispatcherSpec.StepKeeps | KaushOS/kern/ke/scheduler.c:357-701 | Every step keeps the invariant, with SignalState = initial + releases - grants, positive only while nobody waits. |
| DispatcherSpec.StepDoes | KaushOS/kern/ke/scheduler.c:357-701 | What each event does to every field of the world: who runs, who is ready in which place, the time slices, the semaphore and its wait list. |
| DispatcherSpec.BootIsEarly | KaushOS/kern/ps/process.c:1075-1122 | At boot the idle thread is queued with normal priority and gets its own afterwards, so it is in the wrong queue. The first Schedule repairs that, but runs the idle thread while the first thread, which outranks it, is ready. |
| DispatcherSpec.RaisedStep | KaushOS/kern/ke/scheduler.c:357-701 | Until the idle thread runs, every step does what it would do if the thread had the priority of its queue. |
| DispatcherSpec.SafeStep | KaushOS/kern/ke/scheduler.c:357-701 | So every step from boot on is safe, and the invariant holds after it if and only if it held before or the idle thread runs then. |
| DispatcherSpec.InOrderOnceIdleRan | KaushOS/kern/ke/scheduler.c:357-701 | After a run the invariant holds if and only if it held at the start or the idle thread ran at some point. |
| DispatcherSpec.RunAll | KaushOS/kern/ke/scheduler.c:357-701 | Every run of events from boot on is safe, and keeps the invariant once it holds. |
| DispatcherSpec.ScheduleRunsHighest | KaushOS/kern/ke/scheduler.c:357-436 | After Schedule no ready thread outranks the running one, if and only if the invariant held, or Schedule does not pick the idle thread, or no other thread ready or running has a higher priority than that. |
| DispatcherSpec.LeaveRunsHighest | KaushOS/kern/ke/scheduler.c:658-701 | When a thread leaves the processor no ready thread outranks the next one, if and only if the invariant held, or the next is not the idle thread, or no ready thread has a higher priority than that. |
| DispatcherSpec.BlockingRunsHighest | KaushOS/kern/ke/scheduler.c:357-701 | That is what a thread that blocks on a semaphore or ends leaves behind. |
| DispatcherSpec.StepProgress | KaushOS/kern/ke/scheduler.c:357-436 | A step brings the k-th of the highest queue to the processor or no farther from it, a Schedule step nearer. |
| DispatcherSpec.BoundedWaiting | KaushOS/kern/ke/scheduler.c:357-436 | The thread at position k of the highest queue runs before Schedule was called more than k + 1 times, while nothing higher comes. |
| Dispatcher.Kernel.constructor | KaushOS/kern/ps/process.c:1075-1122 | The machine at boot: the first thread runs, the idle thread is in the queue of normal priority. |
| Dispatcher.Kernel.SelectNextThread | KaushOS/kern/ke/scheduler.c:53-87 | The head of the highest non-empty queue not below the floor leaves it; none if all are empty. |
| Dispatcher.Kernel.Schedule | KaushOS/kern/ke/scheduler.c:357-436 | The machine does the specified step, also for a thread that terminated. |
| Dispatcher.Kernel.ReadyThread | KaushOS/kern/ke/scheduler.c:555-601 | The thread joins the tail of the queue of its priority with a new quantum. |
| Dispatcher.Kernel.BlockThread | KaushOS/kern/ke/scheduler.c:658-701 | The running thread waits, and the first of the highest queue runs; there always is one. |
| Dispatcher.Kernel.ExitThread | KaushOS/kern/ke/scheduler.c:357-454 | The thread ends, is listed for cleaning up, and nobody ready outranks the next one exactly as LeaveRunsHighest says. |
| Dispatcher.Kernel.ScheduleDpc | KaushOS/kern/ke/scheduler.c:357-454 | The DPC does the specified step; after it no ready thread outranks the running one exactly as ScheduleRunsHighest says. |
| Dispatcher.Kernel.TimerISR | KaushOS/kern/ke/scheduler.c:466-490 | One tick of the quantum; the DPC is queued when it is used up. |
| Dispatcher.Kernel.WaitForSingleObject | KaushOS/kern/ke/wait.c:507-565 | Takes a signalled semaphore, which then counts one less, and goes on; else joins the tail of its wait list and blocks. |
| Dispatcher.Kernel.DHeaderRelease | KaushOS/kern/ke/wait.c:143-222 | Hands the semaphore to the first that waits, else raises the count. |
| Dispatcher.Kernel.ReleaseSemaphore | KaushOS/kern/ke/wait.c:416-435 | One release; the old count comes back, and if it was positive nobody waited. |
| Dispatcher.Kernel.InitializeSemaphore | KaushOS/kern/ke/wait.c:405-411 | A semaphore that is signalled as often as its count says, with its limit and no waiters. |
| Dispatcher.Kernel.Run | KaushOS/kern/ke/scheduler.c:357-701 | Over any sequence of events the methods together, with ready queues and wait lists as sequences, do the steps of the specification and stay safe; in the end the invariant holds if and only if it held or the idle thread ran. |
| KernelList.List.RingInverse | KaushOS/inc/list.h:80-87 | next and prev are inverse on the ring. |
| KernelList.List.InsertAfter | KaushOS/inc/list.h:93-101 | The sequence with the node put in behind the given one; other nodes keep their contents. |
| KernelList.List.InsertBefore | KaushOS/inc/list.h:103-104 | The sequence with the node put in before the given one; before the first it goes to the end of the ring, and the first stays the first. |
| KernelList.List.InsertHead | KaushOS/inc/list.h:106-122 | The node in front of the sequence. |
| KernelList.List.InsertTail | KaushOS/inc/list.h:124-135 | The node behind the sequence. |
| KernelList.List.Remove | KaushOS/inc/list.h:137-150 | The sequence without the node. |
| KernelList.List.RemoveHead | KaushOS/inc/list.h:152-164 | The first node and the rest, or null. |
| KernelList.List.RemoveTail | KaushOS/inc/list.h:166-178 | The last node and the rest, or null. |
| KernelList.List.Last | KaushOS/inc/list.h:76-77 | The last node, or null. |
| KernelList.List.Next | KaushOS/inc/list.h:84-84 | The next node, null behind the last one. |
| KernelList.List.Prev | KaushOS/inc/list.h:86-87 | The node before, null before the first one. |
| KernelList.List.ForEach | KaushOS/inc/list.h:89-89 | LIST_FOREACH visits each element once, in order, and ends. |
| PoolSpec.LiveApart | KaushOS/kern/mm/pool.c:118-257 | Live allocations are disjoint, lie in the pool, and keep clear of all headers. |
| PoolSpec.NeedIsEnough | KaushOS/kern/mm/pool.c:139-150 | The padded and rounded size covers the request exactly if the sum does not wrap, and then is the least multiple of 4 that does. |
| PoolSpec.WrappedIsServed | KaushOS/kern/mm/pool.c:139-206 | On a fresh pool a request for 0xFFFFFFE0 bytes is served with a block of 24. |
| PoolSpec.CarveKeeps | KaushOS/kern/mm/pool.c:170-206 | Allocation keeps the blocks tiling the pool in address order, with no two free neighbours, if and only if the chosen block has at least the minimum size or room for a second header. |
| PoolSpec.CarveGives | KaushOS/kern/mm/pool.c:183-203 | The block allocated is large enough, carries the tag, and the other live blocks stay as they are. |
| PoolSpec.CarveSplits | KaushOS/kern/mm/pool.c:183-203 | A block of at least the minimum size is split exactly if what is left over is larger than that minimum: the request gets its size, the rest is free behind it; else the whole block is given out. Smaller blocks are always split. |
| PoolSpec.ReleaseFrees | KaushOS/kern/mm/pool.c:230-254 | Freeing takes exactly the freed block from the live ones. |
| PoolSpec.ReleaseKeeps | KaushOS/kern/mm/pool.c:209-257 | Freeing keeps all of that. |
| PoolSpec.ReleaseUndoesCarve | KaushOS/kern/mm/pool.c:118-257 | Freeing a block right after allocating it restores the block list. |
| PoolSpec.BrokenIsReached | KaushOS/kern/mm/pool.c:183-206 | A run of allocations and a free, on a pool of any usual size, reaches the wrapped test and breaks the tiling. |
| PoolSpec.RunKeeps | KaushOS/kern/mm/pool.c:118-257 | Every sequence of allocations and frees keeps the pool in order at each step, if and only if each allocation in it meets the condition of CarveKeeps. |
| PoolSpec.LiveStays | KaushOS/kern/mm/pool.c:118-257 | In such a run a live allocation stays, where it is, until it is freed. |
| PoolSpec.ChecksAgree | KaushOS/kern/mm/pool.c:214-221 | The check on status and tag, as written, is the one meant if and only if the block is in use or the tags differ; in a pool in order, if and only if the block is in use or the tag is not 0. |
| PoolSpec.FreePasses | KaushOS/kern/mm/pool.c:214-221 | A free block, freed with tag 0, passes the check, which is meant to refuse it. |
| PoolSpec.FreeAgain | KaushOS/kern/mm/pool.c:209-257 | Releasing a free block in a pool in order changes nothing. |
| Pool.KernelPool.constructor | KaushOS/kern/mm/pool.c:79-103 | One free block tiles the pool. |
| Pool.KernelPool.FindBlock | KaushOS/kern/mm/pool.c:152-168 | The first free block larger than the size, or none. |
| Pool.KernelPool.Allocate | KaushOS/kern/mm/pool.c:118-207 | The block list is carved at the first fitting block, as CarveSplits says, or nothing changes and null is returned. |
| Pool.KernelPool.JoinBoth | KaushOS/kern/mm/pool.c:228-254 | A free block takes in its free neighbours on both sides. |
| Pool.KernelPool.Free | KaushOS/kern/mm/pool.c:209-257 | The block list with the block released, unless the check refuses; for a block in use it refuses exactly on a wrong tag other than 0. |
| Bitmap.OrBit | KaushOS/lib/bitmap.c:174-185 | Setting a bit of a word sets that bit and keeps the others. |
| Bitmap.AndNotBit | KaushOS/lib/bitmap.c:188-199 | Clearing a bit clears that bit and keeps the others. |
| Bitmap.XorBit | KaushOS/lib/bitmap.c:202-217 | Flipping a bit flips that bit and keeps the others. |
| Bitmap.Bits.Mark | KaushOS/lib/bitmap.c:174-185 | The sequence of booleans with one element true. |
| Bitmap.Bits.Reset | KaushOS/lib/bitmap.c:188-199 | The sequence with one element false. |
| Bitmap.Bits.Flip | KaushOS/lib/bitmap.c:202-217 | The sequence with one element negated. |
| Bitmap.Bits.Test | KaushOS/lib/bitmap.c:220-226 | The element of the sequence. |
| Bitmap.Bits.SetMultiple | KaushOS/lib/bitmap.c:238-250 | The sequence with a run of elements set. |
| Bitmap.Bits.Count | KaushOS/lib/bitmap.c:257-276 | How often the value occurs in a run. |
| Bitmap.Bits.Contains | KaushOS/lib/bitmap.c:279-298 | Whether the run has an element with the value. |
| Bitmap.Bits.Scan | KaushOS/lib/bitmap.c:334-357 | The least start of a run of the value; the error value if and only if there is none. |
| Bitmap.Bits.ScanAndFlip | KaushOS/lib/bitmap.c:360-378 | The same, with exactly that run flipped, or nothing changed; for an empty group the result is the start, so the promised 0 comes back if and only if the start is 0. |
| Bitmap.EmptyGroupIsAtStart | KaushOS/lib/bitmap.c:360-378 | A call for an empty group that returns 1. |
| Bitmap.CoversMore | KaushOS/kern/mm/mm.c:791-829 | A free run joins the live ranges without overlap, and clearing it again restores the bitmap. |
| Bitmap.CoversLess | KaushOS/kern/mm/mm.c:831-853 | Giving a live range back leaves the bitmap with exactly the pages of the others. |
| Bitmap.SystemPtes.Allocate | KaushOS/kern/mm/mm.c:791-829 | The first free run of pages, disjoint from all live ranges; no lower start is free, and every page outside the run keeps its bit; fails if and only if there is no free run. |
| Bitmap.SystemPtes.Free | KaushOS/kern/mm/mm.c:831-853 | The range is free again, and right after its allocation the bitmap is as before. |

## Left out

- FatFile.File.Sync: the sector of the directory entry must not be one of the file; directories and files have no sector in common on a volume of disjoint chains.
- FatVolume.Volume.constructor: there is a cluster, the areas lie on the medium in order, every entry lies in the FAT, and on FAT32 the FSInfo sector is a reserved one; mounting does not check all of it (FatMkfs.MountedIsOk says what is missing).
- FatRun.Run: does not go on behind an f_truncate that leaves a stray buffer, which a later write-back puts into other files (FatRun.StrayIsReached).
- FatDir.Dir.Register: when a cluster is added to a full table and the table is cut at 65536 entries by the 16-bit index, the entries past it are not part of the table.
- FatFormat.MkFs: a write past the end of the medium is the only failing write.
- Mounting is a function from the disk to the fields it sets (FatMkfs.Parse, FatFormat.Mount); the object itself is made from these fields by the constructor of FatVolume.Volume.
- AddressSpace.Memory.InsertPage: a frame mapped elsewhere is given to the temporary slot only; a second writable mapping of a user page would break what cloning relies on, and nothing modelled makes one.
- AddressSpace.Memory.MapSegment: says nothing of the frames taken before a failure, which halts the kernel.
- AddressSpace.Memory.MapPage: says nothing of the frames after a failure, which halts the kernel; the original would leave the allocated frame without an owner.
- Bitmap.SystemPtes.Allocate: the ranges and the bitmap only; the pages behind them are mapped by MmVirtualAlloc, and when that fails the bits stay set.
- Bitmap.SystemPtes.Free: the ranges and the bitmap only; the pages behind them are unmapped by MmVirtualFree.
- Dispatcher.Kernel.WaitForSingleObject: the semaphore case, of a thread other than the idle one, which has nobody to give the processor to; the mutant case asserts when it is contended, and the events' states do not survive a wait.
- Pool.KernelPool.Allocate: headers are objects with an address instead of bytes in the pool, so that writing past an allocation cannot be expressed.
- Disk errors, write protection, media change and the ABORT paths: the disk is an array of sectors that does not fail.
- Long file names, tiny mode, fast seek, file sharing, code pages and the string functions, which are compiled out.
- Paths, f_open, f_mkdir, f_unlink, f_rename, f_readdir and time stamps other than the one f_sync writes; the time is a parameter.
- Partitions other than the first of the table: mounting looks at the first only, and so does the model.
- The kernel half of the address space: its page tables are frames pinned at boot that no reference count covers.
- The temporary slot of the user half is not part of what a process sees, because the kernel maps and unmaps pages there.
- The TLB, writes of the kernel to read-only pages, and the contents of page tables as memory; page tables are a map of entries, data frames are bytes.
- Page faults of the kernel, user pages without the user bit, and MmAllocateUserPtes.
- Spin locks, IRQL, DPC queues other than the scheduler's one DPC, and the context switch itself: a step of the dispatcher is atomic, and switching is a change of the current thread.
- Events, notification objects, mutants, timers, waits for several objects, KiStandbyThread, killing other threads and changing the priority of a queued thread other than the idle one at boot.
- More than one processor.
- Dispatcher.Kernel.Run: the ready queues and wait lists are sequences, not lists of KernelList nodes.
- AddressRun.Run: process.c halts when a clone fails, where the run goes on, as mm.c describes it.
- The lock fields and SLIST functions of list.h.
- Object manager, handles, I/O requests, process setup, ELF loader, drivers, traps, console.
