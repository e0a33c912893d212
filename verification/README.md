# A verified model of an Asterisk kernel's storage, memory and scheduling

This Dafny project models six parts of the kernel and proves what each of them promises.
Modules follow the components:

- **FAT engine** (`kernel/fatfs_ff.c`). `Basics`, `Bytes`, `Bits` and `Layout` are the vocabulary.
  `FatCodec` is the packing of 12-, 16- and 28-bit entries, described by nibbles, and `FatTable`
  the table as links between clusters: chains, the forest they form, stretching and removing.
  `Volume` is the mounted volume with its one-sector write-back window; its *effective disk* is
  the disk as a flush would leave it. `Clusters` has create_chain, remove_chain and the free
  count, `FileData` and `FileObject` the open file with its own dirty sector buffer, refined to a
  byte sequence with a position, `FileSession` whole runs on it and what they mean for other
  files. `Directory` is the table cursor and the search for free entries, `LongName` the units of
  a name in entries, `DirEntries` registering, reading, finding and removing. `Format`, `MakeFs`
  and `Mount` are the writer and the reader of the boot record, `Sync` the write-back of both
  window and information sector.
- **Kernel heap** (`kernel/alloc.c`): `KernelHeap`, headers and payloads in one byte array.
- **Virtual memory** (`kernel/vmm.c`, `sbrk_page`): `Bitmaps`, `FrameLog`, the record of frames
  handed out and released, `Vmm` and, for whole runs, `MemoryRun`.
- **Scheduler** (`kernel/process.c`): `Scheduler`, over a linked list of threads.
- **Ring buffer, message queue and terminal** (`kernel/fifobuffer.c`, `kernel/message.c`,
  `kernel/ttydev.c`): `Fifo` and `Tty`.
- **Path normaliser** (`kernel/fs.c`): `PathResolver`.

Code that works in place is a class or a method over arrays here too. Each such method is proved
against a function or predicate on values, and the lemmas about those say what the code promises.

Conventions. The configured build is modelled: no exFAT, long names with a static buffer, one
sector buffer per file, 512-byte sectors. 32-bit unsigned arithmetic is written out where it can
wrap (`Bytes.W`, the 4 GB limit of f_write). Where the source masks with a power of two less
one, the model takes the remainder; `Bits.AndMask`, `Bits.AndLess` and `Bits.RoundDown` show that
to be the same, and the cluster size of a mounted volume is a power of two. `Healthy` means: the
FAT is a forest, the FATs agree, and the free count is right if it is known.

Some results differ from what the code's own comments or limits suggest:

- The name buffer has room for 255 units, but a name of more than 253 units that was stored is
  not rebuilt, and one of 255 units is not even found (`DirEntries.RegisteredIsListed`,
  `DirEntries.RegisteredIsSought`, both exact).
- A boot sector whose area sizes wrap 32 bits is accepted with overlapping areas
  (`Mount.WrappedIsAccepted`); the layout is right exactly when nothing wraps (`Mount.LayoutOf`).
  Even then clst2sect can wrap and leave the volume (`Mount.FarIsAccepted`); it does not exactly
  when the clusters end within 32 bits as well (`Mount.ClustersInVolumeExactly`).
- f_mkfs can succeed with no cluster at all on a small volume with a large erase block
  (`Format.NoClusterLeft`); such a volume, and no other it makes, does not mount. For which
  volume, erase block and cluster sizes that happens is `Format.EmptyExactly`.
- f_getfree scans FAT16 and FAT32 from entry 0 and FAT12 by get_fat, and is misled by different
  tables (`Clusters.GetFree`).
- sbrk_page takes the address of a frame at or above 2 GiB for an error: the frame stays in use,
  held by nobody (`Vmm.Memory.SbrkPage`); the kernel heap panics on one (`KernelHeap.Heap.Grow`).
- Signals that stop or end picked threads can starve another thread (`Scheduler.StopsStarve`).
- A path component with any leading dot is dropped, and one with two leading dots goes up,
  whatever follows the dots (`PathResolver.Apply`).
- In the terminal a line that reaches 4095 characters is dropped by the next byte, also when
  that is the newline (`Tty.PlainLine`).

## Model

| member | source | states |
|---|---|---|
| Volume.FatVolume.SyncWindow | kernel/fatfs_ff.c:1032-1051 | flushing the window leaves the disk equal to what it would have been after a flush (the effective disk) and the window clean; a sector of the first FAT is stored in the second too, so mirroring is kept |
| Volume.FatVolume.MoveWindow | kernel/fatfs_ff.c:1054-1075 | moving the window changes nothing of the effective disk, and the buffer then holds that sector of it |
| Volume.FatVolume.GetFat | kernel/fatfs_ff.c:1139-1206 | returns the table entry that the FAT bytes encode, 1 for a number out of range, without changing the effective disk |
| Volume.FatVolume.PutFat | kernel/fatfs_ff.c:1216-1265 | sets exactly one entry, cut to the entry width, in the table and nibble by nibble in the FAT bytes; data sectors and mirroring are kept; out of range it is an error that changes nothing |
| FatCodec.PutThenGet | kernel/fatfs_ff.c:1139-1265 | storing and then reading gives the value cut to 12, 16 or 28 bits in that entry and the old value in every other one |
| FatCodec.Put12Bytes | kernel/fatfs_ff.c:1226-1237 | the two byte stores of a FAT12 entry, which shares a byte with its neighbour, change exactly its three nibbles |
| FatCodec.Put16Bytes | kernel/fatfs_ff.c:1238-1242 | a FAT16 store changes exactly the four nibbles of the entry |
| FatCodec.Put32Bytes | kernel/fatfs_ff.c:1243-1254 | a FAT32 store changes the low 28 bits and keeps the top four |
| FatCodec.Get12 | kernel/fatfs_ff.c:1153-1162 | the shifting and masking of two bytes that may lie in two sectors gives the three nibbles of a FAT12 entry |
| FatCodec.Get32 | kernel/fatfs_ff.c:1168-1171 | the masked dword is the 28-bit entry |
| Layout.AddressedExactly | kernel/fatfs_ff.c:1122-1130 | counted in 32 bits, every sector of every cluster lies in the data area exactly when the data area ends within 32 bits; then each first sector is the one unbounded arithmetic gives |
| Volume.FatVolume.ClusterToSector | kernel/fatfs_ff.c:1122-1130 | on a mounted volume that lies on its disk, the 32-bit first sector of a cluster is the right one; it is what the file and directory operations use |
| FatTable.RunKeepsForest | kernel/fatfs_ff.c:1406-1592 | every run of legitimate create_chain and remove_chain calls keeps the FAT a forest of disjoint acyclic chains |
| FatTable.StretchForest | kernel/fatfs_ff.c:1577-1592 | linking a free cluster behind the end of a chain keeps the forest |
| FatTable.StretchExtends | kernel/fatfs_ff.c:1577-1592 | a stretch turns the chain it is applied to into itself plus the new cluster |
| FatTable.FreeChain | kernel/fatfs_ff.c:1430-1459 | freeing from a cluster of an intact chain clears exactly the entries of the rest of that chain and succeeds |
| FatTable.CutChain | kernel/fatfs_ff.c:1419-1459 | a removal behind a predecessor cuts exactly one suffix: what precedes it is a chain again |
| FatTable.RemoveForest | kernel/fatfs_ff.c:1406-1463 | a removal of a whole chain, or behind a predecessor, succeeds and keeps the forest |
| FatTable.HeadChainsDisjoint | kernel/fatfs_ff.c:1406-1592 | in a forest chains that start at different unlinked clusters share no cluster |
| Clusters.RemoveChain | kernel/fatfs_ff.c:1406-1463 | remove_chain on any FAT, cyclic or damaged: the resulting table, the result, kept data, kept mirroring, and a free count that stays right |
| Clusters.FreeAll | kernel/fatfs_ff.c:1430-1459 | the freeing loop ends on every FAT, since each turn clears one more nonzero entry, and computes the specified table |
| Clusters.FindFree | kernel/fatfs_ff.c:1542-1567 | the wrapping search finds the first cluster in visiting order whose entry is 0 or 1, or that there is none |
| Clusters.CreateChain | kernel/fatfs_ff.c:1501-1592 | create_chain on any FAT: the exact new table, kept data and mirroring, a free count that stays right, and what it hands out: behind an end mark the next cluster if that is free; for a new chain the first cluster behind the last one allocated, in wrapping order, that is free |
| Clusters.CreatedHanded | kernel/fatfs_ff.c:1501-1592 | whatever create_chain hands out is the linked next cluster of a chain that goes on, the free neighbour behind its end, or the first free cluster in wrapping order, with no cluster in between free |
| Clusters.FullExactly | kernel/fatfs_ff.c:1511-1575 | on a table without the value 1 create_chain returns 0 exactly when no cluster is free, else a cluster that was free |
| Clusters.CreatedForest | kernel/fatfs_ff.c:1501-1592 | create_chain keeps the forest whatever it returns |
| Clusters.GetFree | kernel/fatfs_ff.c:4604-4684 | f_getfree yields the true number of free clusters exactly when that is known already, or the scan of the kind at hand is not misled (no entry 1 on FAT12; nonzero entries 0 and 1 otherwise), and then remembers it; an error exactly on FAT12 with an entry 1 |
| Clusters.ScanRaw | kernel/fatfs_ff.c:4645-4672 | the scan of raw sectors counts exactly the zero entries, for nonzero reserved entries |
| FileData.WriteRun | kernel/fatfs_ff.c:3872-3884 | writing consecutive disk sectors that are consecutive in the file replaces exactly those bytes of its contents |
| FileObject.Growth | kernel/fatfs_ff.c:1501-1592 | asked for the cluster behind the first m of a chain, create_chain gives the next one or appends one that was free |
| FileObject.DiskWrite | kernel/fatfs_ff.c:3876-3882 | a direct write to the data area changes those sectors of the effective disk and no FAT entry |
| FileObject.File.FlushBuffer | kernel/fatfs_ff.c:3854-3859 | writing back the dirty sector buffer changes neither the contents of the file nor anything of other files |
| FileObject.File.Read | kernel/fatfs_ff.c:3708-3798 | f_read delivers exactly the slice of the contents at the position, cut at the end of the file, moves the position by it, and changes neither contents, FAT nor other files |
| FileObject.File.Write | kernel/fatfs_ff.c:3808-3920 | f_write replaces or appends exactly the first bw bytes of the data at the position; on a sound volume it stops early only when no cluster is free or at the 4 GB limit; other files and soundness of the volume are kept |
| FileObject.File.Seek | kernel/fatfs_ff.c:4224-4376 | f_lseek goes where it is asked, cut at the end of a file that is not writable; contents are kept and extended only; on a sound volume it stops short only when no cluster is free |
| FileObject.File.SeekWalk | kernel/fatfs_ff.c:4333-4357 | walking on from the remembered cluster reaches the cluster and offset of the target, following or stretching the chain |
| FileObject.File.SeekSector | kernel/fatfs_ff.c:4306-4372 | the sector reached from the remembered cluster is the one that counting from the head of the chain gives |
| FileObject.File.Truncate | kernel/fatfs_ff.c:4693-4734 | f_truncate leaves exactly the contents before the position, frees exactly the clusters behind it, and keeps other files and the forest |
| FileObject.CutAll | kernel/fatfs_ff.c:4707-4710 | truncating at 0 frees exactly the whole chain |
| FileObject.CutBehind | kernel/fatfs_ff.c:4711-4719 | truncating behind k clusters leaves a chain of these k and frees exactly the rest |
| FileSession.HeadKept | kernel/fatfs_ff.c:4693-4734 | a file that exchanges clusters with the free ones only still owns a whole chain that nothing else links to |
| FileSession.OtherFileUntouched | kernel/fatfs_ff.c:3808-3920 | whatever one file does, the chain and all bytes of a file with another start cluster stay the same |
| FileSession.Run | kernel/fatfs_ff.c:3708-4376 | for any mix of reads, writes, seeks and truncations each step behaves as that of a byte sequence with a position; fewer bytes are written, or a seek stops short, only at a step after which no cluster is free, or at the 4 GB limit; the volume stays sound throughout and other files are kept over the whole run |
| Sync.SyncFs | kernel/fatfs_ff.c:1085-1113 | sync_fs writes the effective disk and, on FAT32 when due, the information sector; the FAT is not touched if more than one sector is reserved |
| Sync.SyncThenMount | kernel/fatfs_ff.c:1085-1113 | sync_fs and mounting again: from a volume mounted from a disk whose boot sectors were not touched the same layout, free count and last cluster are found, whether or not a write was due; on a sound volume the count is the true one; this can be repeated |
| Sync.Found | kernel/fatfs_ff.c:3201-3404 | a disk with the same boot sectors mounts as the same volume, with what its information sector says |
| Sync.StaysMounted | kernel/fatfs_ff.c:1406-1592 | create_chain, remove_chain and f_getfree keep what that needs: a changed count or last cluster is marked as to be recorded |
| Directory.Dir.Seek | kernel/fatfs_ff.c:1673-1712 | dir_sdi succeeds exactly for aligned offsets below the limit that lie in the table, and sets cluster, sector and entry of that offset |
| Directory.Dir.Next | kernel/fatfs_ff.c:1721-1771 | dir_next follows the specification on any FAT; at the end of a chain that may be stretched it appends a cluster that was free and is cleared |
| Directory.PlaceStep | kernel/fatfs_ff.c:1721-1771 | the place computed for the next entry is what one dir_next step makes of the place of this one |
| Directory.SeekIsSteps | kernel/fatfs_ff.c:1673-1771 | seeking to entry k succeeds exactly when k steps from the first entry do, and ends at the same place, for static tables and chains on any FAT |
| Directory.DirClear | kernel/fatfs_ff.c:1634-1661 | dir_clear makes all sectors of the cluster zero and changes no other |
| Directory.StretchKeepsEntries | kernel/fatfs_ff.c:1744-1762 | stretching a table leaves each entry it had where it was and as it was |
| Directory.Dir.Alloc | kernel/fatfs_ff.c:1781-1812 | dir_alloc returns the first run of the asked length of free entries; denied only if there is none in the whole table and the table cannot grow; links are kept, data changes in formerly free clusters only, and end marks stay followed by free entries only |
| Directory.RunWasFree | kernel/fatfs_ff.c:1781-1812 | every entry of that run was free before, or lies in a cluster that was free and was cleared |
| LongName.PutLfn | kernel/fatfs_ff.c:1934-1959 | put_lfn determines all 32 bytes of the entry: order with the last-part flag, checksum, and the units of that part with terminator and filler |
| LongName.PartBytes | kernel/fatfs_ff.c:1934-1959 | for a name and its place among the parts: every byte of the entry |
| LongName.PickLfn | kernel/fatfs_ff.c:1896-1924 | pick_lfn accepts exactly well-padded entries whose units, and for the last part the terminator, fit; what it does to the buffer in every case |
| LongName.CmpLfn | kernel/fatfs_ff.c:1860-1889 | cmp_lfn accepts exactly entries whose units equal those of the buffer under the case mapping, within bounds |
| LongName.MatchIsSame | kernel/fatfs_ff.c:1860-1889 | a name all of whose parts match the buffer is the name sought, of the same length and the same units up to the case mapping |
| LongName.SumSfn | kernel/fatfs_ff.c:2029-2040 | the checksum loop computes the rotate-and-add sum of the eleven bytes |
| LongName.SumDetects | kernel/fatfs_ff.c:2029-2040 | two short names that differ in one byte have different checksums |
| LongName.SumOfReadme | kernel/fatfs_ff.c:2029-2040 | the checksum of the short name "README  TXT" is 115 |
| LongName.PickPart | kernel/fatfs_ff.c:1896-1959 | pick_lfn takes back every part that put_lfn made, except the last part of a name longer than 253 units |
| LongName.MatchPart | kernel/fatfs_ff.c:1860-1959 | cmp_lfn accepts every part of the name in the buffer, except the last part of a name of 255 units |
| DirEntries.Register | kernel/fatfs_ff.c:2482-2576 | dir_register leaves, in the first run that was free, the parts of the name in descending order and the short entry, and no other entry of an intact table changed; refused only if the table has no entry, or has no such run and cannot grow |
| DirEntries.Read | kernel/fatfs_ff.c:2323-2387 | dir_read comes to the first entry from the cursor on that is listed, neither removed, long name nor volume label, and names it by the long-name entries directly in front of it exactly when they count down to 1 from a last part and carry the checksum of its short name; it ends in an error only if nothing is listed before an end mark |
| DirEntries.ListedIs | kernel/fatfs_ff.c:2323-2387 | the fold that dir_read computes ends at the first listed entry, with a name or without as the entries in front of it say, or nothing is listed |
| DirEntries.ReadOne | kernel/fatfs_ff.c:2335-2377 | one entry of dir_read: order countdown, checksum and name buffer |
| DirEntries.Find | kernel/fatfs_ff.c:2401-2466 | dir_find ends at the first entry before any end mark that answers the search, and only if none does it reports that: an entry answers if its eleven bytes are those sought, for a search that has a short name, or if the entries in front of it are the parts of the long name, up to the case mapping, with its checksum |
| DirEntries.FoundFirst | kernel/fatfs_ff.c:2401-2466 | the fold that dir_find computes ends at the first entry that answers, or none does |
| DirEntries.FindOne | kernel/fatfs_ff.c:2437-2460 | one entry of dir_find: order countdown, checksum, comparison of a part or of the eleven bytes |
| DirEntries.RegisteredIsListed | kernel/fatfs_ff.c:2323-2576 | reading from any earlier entry of the table on comes to a file in front of the registered one, or to that one, with its name rebuilt unchanged exactly when it has at most 253 units; longer names are lost |
| DirEntries.RegisteredIsSought | kernel/fatfs_ff.c:2401-2576 | dir_find, from the first entry of the table, ends at an earlier entry that answers the search too, or else at the short entry of the registered name, and that exactly when the name has at most 254 units, whatever the case mapping |
| DirEntries.RegisteredClosed | kernel/fatfs_ff.c:2482-2576 | registering keeps every end mark followed by free entries only, and none lies in front of what was registered |
| DirEntries.RemovedClosed | kernel/fatfs_ff.c:2588-2620 | removing keeps every end mark followed by free entries only |
| DirEntries.RegisteredIntact | kernel/fatfs_ff.c:2482-2576 | on a sound volume the table of an existing directory is intact after registering |
| DirEntries.Remove | kernel/fatfs_ff.c:2588-2620 | dir_remove marks exactly the entries of the object and changes nothing else of them |
| DirEntries.RemovedUnseen | kernel/fatfs_ff.c:2588-2620 | an entry that was removed is free, is not listed and answers no search |
| DirEntries.RemoveUndoesRegister | kernel/fatfs_ff.c:2482-2620 | removing what was registered frees the whole run again and leaves every other entry as dir_alloc left it |
| DirEntries.SlotsApart | kernel/fatfs_ff.c:1673-1712 | no two entries of an intact table share a byte |
| DirEntries.EntryPlace | kernel/fatfs_ff.c:1673-1771 | sixteen entries to a sector, in the static root directory or one sector after the other in the clusters of the chain |
| DirEntries.ShortBytes | kernel/fatfs_ff.c:2564-2573 | the short entry has the eleven bytes of the name, the case of body and extension in bits 3 and 4 of byte 12, and zeros |
| Bits.AndLess | kernel/fatfs_ff.c:3335 | the test csize & (csize - 1) accepts exactly the powers of two |
| Bits.AndMask | kernel/fatfs_ff.c:3735 | masking with a power of two less one is the remainder, which is how positions in clusters are modelled |
| Bits.RoundDown | kernel/fatfs_ff.c:5797 | masking with the complement rounds a 32-bit number down to a multiple |
| Format.ChooseLayout | kernel/fatfs_ff.c:5763-5857 | the retry loop of f_mkfs ends, since FAT type and fixed cluster size change once each, with the specified outcome |
| Format.AnyVolumeFits | kernel/fatfs_ff.c:5763-5857 | asked for any FAT type, without alignment, the loop finds a layout with clusters for every volume of at least 128 sectors |
| Format.AutoSizes | kernel/fatfs_ff.c:5763-5785 | the cluster size tried first, by the size of the volume |
| Format.SettleSound | kernel/fatfs_ff.c:5763-5857 | every layout it settles on, for any volume, cluster and erase block size, has a matching type, a FAT long enough, fields that fit their width and an aligned data area; no 32-bit wrap goes unnoticed |
| Format.EmptyExactly | kernel/fatfs_ff.c:5763-5857 | the loop settles on a layout without a cluster exactly for requests where, with the cluster size tried first or its double, a FAT12 volume passes the size check but the alignment leaves less than one cluster |
| Format.NoClusterLeft | kernel/fatfs_ff.c:5795-5857 | a volume of 512 sectors with erase blocks of 512 sectors, as this kernel reports them: the loop is content with no cluster |
| Format.Sound16 | kernel/fatfs_ff.c:5780-5806 | for FAT12 and FAT16 a cluster count that wrapped is rejected, so an accepted count is right |
| MakeFs.Mkfs | kernel/fatfs_ff.c:5505-5946 | the argument checks of f_mkfs, in their order, what is asked of the layout search, and on success a sound layout and a disk formatted accordingly |
| MakeFs.WriteVolume | kernel/fatfs_ff.c:5859-5946 | boot sector, information sectors, FAT, root directory and partition table are written, other sectors are not; what is behind the fields of each of them is zero |
| MakeFs.WriteFill | kernel/fatfs_ff.c:5912-5935 | the buffered loop writes the first sector as given and zeros after it |
| MakeFs.FillVbr | kernel/fatfs_ff.c:5864-5894 | every byte of the boot sector |
| MakeFs.FormattedPartition | kernel/fatfs_ff.c:5917-5955 | the partition table has one entry, which starts at sector 63 and covers exactly the sectors that the boot sector in it claims, up to the end of the disk; its type byte tells FAT type and size |
| MakeFs.VbrAccepted | kernel/fatfs_ff.c:3324-3374 | find_volume accepts the boot sector of f_mkfs exactly when the volume has a cluster, and reads back the layout it was made for |
| MakeFs.FormattedMounts | kernel/fatfs_ff.c:3201-3404 | mounting what f_mkfs made, with or without partition table, recovers type, bases, cluster size and count, and on FAT32 free count and last cluster, exactly when the layout has a cluster |
| MakeFs.FormatMountsExactly | kernel/fatfs_ff.c:5505-5946 | what f_mkfs made for a request mounts exactly when the request leaves room for a cluster, a condition on volume size, erase block and cluster size; always if the erase block has at most 15 clusters |
| MakeFs.MountAndCount | kernel/fatfs_ff.c:4604-4684 | f_getfree on a freshly formatted and mounted volume of any kind returns the true number of free clusters |
| MakeFs.FormattedHealthy | kernel/fatfs_ff.c:5910-5935 | the volume object mounted from a fresh disk is sound: a forest with all clusters free but the FAT32 root directory, and a right free count |
| Mount.FindVolume | kernel/fatfs_ff.c:3201-3404 | the search for a boot sector on the drive or in its four partitions, and what is read from it |
| Mount.FoundExactly | kernel/fatfs_ff.c:3251-3374 | find_volume goes by the boot sector of the drive if it is one of FAT; else by that of the first entry of the partition table, any of the four, that names one; a volume behind a partition table is that of the first such entry |
| Mount.InfoIs | kernel/fatfs_ff.c:3376-3396 | free count and last cluster are taken from the information sector of FAT32 exactly if it carries its three signatures |
| Mount.Parse | kernel/fatfs_ff.c:3322-3374 | the checks of the boot sector, one by one, equal the declarative acceptance |
| Mount.AcceptsOnly | kernel/fatfs_ff.c:3322-3374 | what a boot sector must say to be accepted: sector and cluster size, number of FATs, reserved area, root entries by type, FAT32 version, and a FAT long enough |
| Mount.KindByCount | kernel/fatfs_ff.c:3347-3356 | the FAT type is FAT12 up to 4085 clusters, FAT16 up to 65525, else FAT32 |
| Mount.FloppyIsAccepted | kernel/fatfs_ff.c:3322-3374 | the boot sector of a 1440 KiB floppy disk has 2847 clusters on FAT12 with its root directory 19 and its data 33 sectors in |
| Mount.GigabyteIsAccepted | kernel/fatfs_ff.c:3322-3374 | that of a FAT32 volume of 1 GiB has 261629 clusters with its data 4120 sectors in |
| Mount.LayoutOf | kernel/fatfs_ff.c:3324-3374 | for an accepted boot sector the FATs, root directory and start of the data area follow one another with a FAT long enough, if and only if the sum of partition start and system area does not wrap 32 bits |
| Mount.ClustersInVolumeExactly | kernel/fatfs_ff.c:3338-3374 | every sector of every cluster, computed in 32 bits, lies in the volume behind its system area, if and only if neither the system area nor the whole clusters behind it reach beyond 32 bits |
| Mount.EndInRange | kernel/fatfs_ff.c:3338-3374 | in particular if the system area does not wrap and the volume ends within 32 bits |
| Mount.WrappedIsAccepted | kernel/fatfs_ff.c:3330-3356 | a concrete boot sector whose sums wrap is accepted, with its data area inside its FATs |
| Mount.FarIsAccepted | kernel/fatfs_ff.c:3324-3374 | a concrete boot sector with a layout that does not wrap is accepted, but the computed sector of its last cluster lies in front of the volume |
| KernelHeap.Heap.Grow | kernel/alloc.c:56-88 | ksbrk_page adds one free chunk of n pages, or fails exactly when the address range, the frames below 2 GiB for its pages, or the frames for its pages and new page tables run out; how many frames it takes |
| KernelHeap.Heap.Initialize | kernel/alloc.c:49-54 | the heap starts as one free chunk of a page, which takes a frame and a page table; exactly when these two frames exist |
| KernelHeap.Heap.Kmalloc | kernel/alloc.c:90-156 | kmalloc cuts the chunk with the lowest address that fits, grows only when none does, halts exactly when ksbrk_page cannot grow it; headers describe the new chunks and live payloads keep their bytes |
| KernelHeap.FirstAllocation | kernel/alloc.c:90-156 | what the first allocation on a fresh heap leaves: a header of four bytes, sixteen bytes at least, the rest of the page free |
| KernelHeap.Heap.Kfree | kernel/alloc.c:158-179 | kfree merges the released chunk with the free ones behind it; headers describe the result and live payloads keep their bytes |
| KernelHeap.DescribesAllocated | kernel/alloc.c:139-151 | writing the headers of the cut chunk makes the memory describe the new chunks and touches no live payload |
| KernelHeap.DescribesFreed | kernel/alloc.c:167-178 | rewriting one header makes the memory describe the merged chunks |
| KernelHeap.FreedIsMerged | kernel/alloc.c:172-178 | after a release the next chunk is in use or there is none |
| KernelHeap.FreeUndoesAlloc | kernel/alloc.c:90-179 | releasing what was just allocated restores the chunks exactly when no free chunk follows the one it came from |
| KernelHeap.TilesOrder | kernel/alloc.c:105-136 | chunks are disjoint and in address order |
| Bitmaps.Bitmap.Put | kernel/vmm.h:44-45 | setting or clearing a bit changes that bit only |
| Bitmaps.Bitmap.FirstClear | kernel/vmm.c:124-146 | the scan by bytes and bits finds the first clear bit |
| Vmm.Memory.Acquire | kernel/vmm.c:109-147 | the lowest free frame is marked as used, or there is none |
| Vmm.Memory.AddPage | kernel/vmm.c:240-318 | maps a page unless it is mapped; other mappings are kept; frames newly used are those of page tables, whose directory entries are owned or not as asked; every frame stays held at most once |
| Vmm.Memory.RemovePage | kernel/vmm.c:322-404 | unmaps a page; exactly the owned frames whose entries are cleared are released, and no page table is left without a mapping |
| Vmm.Memory.DestroyDirectory | kernel/vmm.c:189-234 | clears all user mappings of a process and releases exactly the frames that its entries owned |
| Vmm.Memory.MapMemory | kernel/vmm.c:562-625 | maps at the leftmost run of free pages at or after the hint, or changes nothing; bitmap and mappings of the process agree afterwards and other processes are not touched, whatever became of them |
| Vmm.Memory.UnmapMemory | kernel/vmm.c:628-666 | unmaps a range of the user area, clears its bits, releases exactly what the cleared entries owned; bitmap and mappings of the process agree afterwards |
| Vmm.Memory.FindRun | kernel/vmm.c:575-600 | the one-pass scan finds the leftmost run of free pages |
| Vmm.Memory.SbrkPage | kernel/alloc.c:181-224 | the break goes down as far as it can; it goes up to its target or the end of the user range, and stops short exactly when it is handed a frame at or above 2 GiB, which is then in use, unmapped and held by nobody, with no lower frame free; pages below the break are mapped, released ones are not; it halts only when every frame is in use |
| Vmm.Memory.NewSpace | kernel/vmm.c:544-559 | a new process maps nothing and its bitmap says so |
| Vmm.GivesMore | kernel/vmm.c:189-234 | released frames add up over steps: exactly those whose owning entries were cleared |
| Vmm.ReleasedOnce | kernel/vmm.c:322-404 | a frame is released in the step that clears the one entry that owned it, and is then held by nobody |
| Vmm.UnmapUndoesMap | kernel/vmm.c:562-666 | unmapping what was just mapped restores bitmap and mappings; owned frames are released, frames nobody owned are not |
| MemoryRun.UnmapRestores | kernel/vmm.c:240-404 | mapping frames as owned where no page tables were and unmapping them again leaves the directory as it was and exactly the frames in use that were, without the mapped ones: the frames of the page tables made for them are released too |
| MemoryRun.MapAndUnmap | kernel/vmm.c:562-666 | vmm_map_memory and vmm_unmap_memory of the range it chose: bitmap, and where no page tables were, directory and used frames are back |
| MemoryRun.DestroyReleases | kernel/vmm.c:189-234 | destroying a directory all of whose page tables are owned releases exactly the frames the process held |
| FrameLog.Alternates | kernel/vmm.c:109-155 | if only free frames are handed out and only used ones released, no frame is released twice without being handed out in between, nor handed out twice without being released |
| MemoryRun.Mmap | kernel/syscalls.c:1449-1480 | mapping anonymous memory takes frames and maps them as owned, or gives them all back and has changed nothing |
| MemoryRun.PerformDestroy | kernel/vmm.c:189-234 | a process that never shared memory nor raised its break gives back exactly the frames it held |
| MemoryRun.Run | kernel/vmm.c:109-666 | any run of process creation, anonymous, shared and removed mappings, breaks, destruction and frames taken by the kernel: every frame has at most one holder, held frames are in use, the bitmaps of live processes mirror their mappings, and acquisitions and releases of every frame alternate; without shared mappings and raised breaks no frame is lost: those in use are those of the start, of the kernel and of live processes |
| Scheduler.BoundedWaiting | kernel/process.c:1051-1238 | of n threads besides the idle one, a thread that can run at every call is dispatched by the time the current thread could be interrupted at n calls, whatever else happens to the others, as long as no signal ends or stops a picked thread |
| Scheduler.StopsStarve | kernel/process.c:1193-1230 | signals that stop picked threads void that bound: the search starts over, and a third thread does not come closer |
| Scheduler.IdleOnlyIfNone | kernel/process.c:1051-1101 | the idle thread is picked exactly when, after wake-ups, no other thread can run |
| Scheduler.PickCloser | kernel/process.c:1051-1101 | whoever is picked instead of a runnable thread is closer to it in turn than the current one |
| Scheduler.ScanFinds | kernel/process.c:1051-1097 | a scan finds the first thread that can run and updates exactly those it passes |
| Scheduler.Thread.UpdateState | kernel/process.c:1028-1049 | a sleeper is resumed exactly when its time has come, a selecting thread exactly when what it waits for is ready; a thread in any other state is unchanged |
| Scheduler.Thread.Signal | kernel/process.c:736-768 | a signal is queued if there is room; what it does to stopped and waiting threads |
| Scheduler.Tasks.LookThreads | kernel/process.c:1051-1101 | the two loops over the linked list pick the first thread in turn that runs, slept until its time, or selected something ready, else the idle thread, and change nothing but threads so woken |
| Scheduler.LookedIsFirst | kernel/process.c:1051-1101 | the specified scan picks the first such thread: one that still sleeps is neither changed nor picked |
| Scheduler.Tasks.Unlink | kernel/process.c:640-671 | unlinking the threads of a process leaves a linked list of exactly the others and the idle thread |
| Scheduler.SurvivorsAre | kernel/process.c:640-671 | a thread stays exactly if it is the idle thread or belongs to another process |
| Scheduler.Tasks.Destroy | kernel/process.c:634-706 | process_destroy unlinks the threads and resumes exactly the threads of the parent that wait for a child |
| Scheduler.Tasks.Schedule | kernel/process.c:1163-1238 | which thread runs next and what becomes of the others, in every case: nothing to switch to, no signal, a signal that ends the process, one that stops the thread, another one; without a signal that ends or stops the picked thread it is the step of the bounded waiting |
| Scheduler.OutcomeIs | kernel/process.c:1193-1238 | which signals, by number, end the process, stop the thread or let it run |
| Fifo.Ring.Enqueue | kernel/fifobuffer.c:86-105 | appends the longest prefix that fits, through wrap-around |
| Fifo.Ring.Dequeue | kernel/fifobuffer.c:107-130 | removes and returns a prefix |
| Fifo.Ring.EnqueueFrom | kernel/fifobuffer.c:132-159 | moves a prefix from one ring to the other; nothing is lost, doubled or reordered |
| Fifo.MessageQueue.Send | kernel/message.c:39-46 | a message is queued whole, or not at all when the queue is full |
| Fifo.MessageQueue.GetNext | kernel/message.c:62-84 | the oldest message is returned whole, with the number left |
| Fifo.MessageQueue.Places | kernel/process.c:442 | because the capacity is a multiple of the message size there is always room for a whole message or for nothing |
| Tty.PrintableLine | kernel/ttydev.c:257-411 | under any settings printable text reaches the reader as typed, closed by a newline, exactly when it has 1 to 4094 characters and the byte after it is one that ends a line (newline without inlcr, or carriage return with icrnl and without igncr, after stripping); another byte makes nothing available |
| Tty.PlainLine | kernel/ttydev.c:367-411 | what is offered of a line of plain characters of any length: all of it exactly up to 4094 characters, otherwise what is left after each loss of 4095 |
| Tty.Device.MasterWrite | kernel/ttydev.c:293-461 | line buffer, input, echo, output, count and signals after a write are exactly the specified ones, with or without room; no signal is raised without the setting and a foreground process; with echo off and nothing erased the output is untouched; the line index stays in bounds |
| Tty.LineWritten | kernel/ttydev.c:293-461 | given room, a printable line reaches the reader with its newline and the master as typed, then newline and carriage return, and all its bytes count |
| Tty.PrintableEcho | kernel/ttydev.c:329-411 | printable text is echoed as typed, in both modes |
| Tty.EchoOff | kernel/ttydev.c:329-411 | with echo off nothing is echoed but the blanking of an erased character |
| Tty.ControlEcho | kernel/ttydev.c:329-344 | a control character is echoed as a caret and its letter |
| Tty.SignalRaised | kernel/ttydev.c:346-360 | with the setting and a foreground process, of the bytes that no setting translates, the interrupt, suspend and quit characters raise their signal each, the others none |
| Tty.EraseUndoes | kernel/ttydev.c:367-411 | in canonical mode, with room, a character and a backspace behind it leave line and input as they were, and the character is blanked |
| Tty.Device.SlaveRead | kernel/ttydev.c:592-652 | what one turn of a read returns, or that it has to wait, in both modes |
| Tty.WritesJoin | kernel/ttydev.c:293-461 | given room, writing a and then b leaves the same line, input and output as writing both at once |
| Tty.OffersLines | kernel/ttydev.c:367-411 | in canonical mode, given room, the bytes offered are exactly the edited non-empty lines, each with its newline, and the line buffer is the unfinished line |
| Tty.OfferedWhole | kernel/ttydev.c:380-398 | what is offered ends with a newline |
| Tty.EditedPlain | kernel/ttydev.c:399-411 | no line contains a newline |
| Tty.LineBound | kernel/ttydev.c:367-411 | the line never fills its buffer |
| PathResolver.ResolvePath | kernel/fs.c:124-214 | in place, fs_resolve_path succeeds exactly when splitting, folding over a stack and joining does, and leaves that text, closed by a zero |
| PathResolver.ResolveTwice | kernel/fs.c:124-214 | resolving the result again in a buffer of the same size gives the same path; it fits the buffer and its names are proper |
| PathResolver.FoldProper | kernel/fs.c:166-200 | no name of the result is empty or starts with a dot |
| PathResolver.TokensOfText | kernel/fs.c:124-214 | splitting a resolved path gives back the names it was joined from |
| PathResolver.PopName | kernel/fs.c:166-183 | going up takes off exactly the last name, never the root |
| PathResolver.OneMore | kernel/fs.c:124-214 | what one more component does to a path: ".." takes off the last name, "." nothing, a name is put behind if there is room for it |
| PathResolver.UpCancels | kernel/fs.c:124-214 | a name followed by ".." leaves a path as it was |
| PathResolver.FinalReads | kernel/fs.c:124-214 | the text of a path is its names with a slash in front of each, and a slash for the root |

## Left out

- Disk errors: reads and writes of sectors of the disk always succeed, as the block device layer of the kernel reports; a sector outside the disk is an error only while mounting.
- FileObject.File.Read: an intact chain is part of the object invariant, so the internal-error exit for a damaged chain while reading is not modelled; create_chain, remove_chain, get_fat and the directory functions are modelled for any FAT.
- FileObject.File.Seek: a file whose own chain is damaged, as for reading; the bytes that a seek behind the end exposes are unspecified, as in the source.
- FileObject.File.Write: a file whose own chain is damaged, as for reading; the caller's buffer is a sequence, so a caller that passes memory of the file object itself is not modelled.
- FileObject.File.Truncate: a file whose own chain is damaged, as for reading; soundness of the volume is stated for a file that owns its chain from an unlinked start cluster, which every run keeps (`FileSession.HeadKept`).
- FileSession.Run: the file system object is used by this file alone during the run.
- f_open, f_sync, f_close, f_unlink, f_rename and f_mkdir: they compose the modelled functions with path lookup and dates.
- The check of object validity and mount identifiers, and locks.
- exFAT, fast seek, expand, find, label and string functions: not in the configured build.
- create_name, gen_numname and the code-page tables: the case mapping is any function, and `DirEntries.Register` takes the short name that was finally chosen.
- LongName.PickPart: stated for names without 0 and 0xFFFF; `LongName.PutLfn` covers every name.
- DirEntries.Register: the error results for names that are no names, and numbering a colliding short name, are not modelled; what the entries hold is stated for a static table or an intact chain; on a cyclic chain entries share bytes.
- Volume labels in dir_read, and the file attributes, dates and start clusters in entries.
- Sync.StaysMounted: stated for one operation on clusters; that direct writes of files touch no boot sector follows from their lying in the data area.
- Sync.SyncThenMount: no partition may start at the information sector, and a partition table in use has not changed.
- MakeFs.Mkfs: no multiple partitions and no trim; the volume serial number is a parameter.
- Mount.FindVolume: a drive already mounted, write protection and drive numbers are not modelled.
- KernelHeap.Heap.Grow: free frames are two counters, those below 2 GiB and the others; that the lowest is taken first is `Vmm.Memory.Acquire`.
- KernelHeap.Heap.Kmalloc: sizes near 2^31, whose sums would wrap, are excluded, and the statistics counter is not modelled.
- KernelHeap.Heap.Kfree: releases only chunks in use, as callers must.
- Vmm.Memory.AddPage: the user range only; kernel mappings and their copy to all directories are not modelled.
- Vmm.Memory.UnmapMemory: ranges inside the user range only.
- MemoryRun.Run: operations of processes that are not alive are refused; the check of syscall_mmap and sbrk that enough frames are free is left out, so running out is a panic; nothing is promised of the operation that panics. That no frame is lost is stated for runs without shared mappings and raised breaks: the source loses the page tables of unowned mappings with their directory, and sbrk_page a frame at or above 2 GiB.
- MemoryRun.Mmap: the requested length is a number of pages, and clearing the memory is not modelled.
- Page tables are maps by directory index; that they lie in the frames their directory entries name is not modelled, nor are directory slots, TLB and the frames of page tables made by unowned mappings after their directory is destroyed.
- The bitmap of mapped pages of a process is a sequence of bits; the bitmap of frames is modelled bytewise.
- A panic of the kernel is a result (`halted`), after which nothing is promised.
- Scheduler.Tasks.Schedule: registers, usage metrics and context switch are not modelled; what a selecting thread waits for is an input.
- Scheduler.BoundedWaiting: between two calls the other threads may change at will, but none is created or destroyed, there is a current thread, and picked threads have no signal that ends or stops them.
- Memory, files and shared memory given back by process_destroy, and thread_create.
- Tty.Device.SlaveRead: the wait itself, and the list of waiting readers.
- Tty.OffersLines: stated, like Tty.PrintableLine, for queues with room and an erase character other than the newline; `Tty.Device.MasterWrite` covers the rest.
- slave_write and its count, ioctl, and waking of readers and writers.
- Spinlocks: the operations of a component are taken one at a time.
