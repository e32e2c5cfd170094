# ZurichOS core algorithms, modelled and proved

ZurichOS is a 32-bit kernel written in C. This project models the parts of it that are
algorithms on mutable state and proves what they promise.

**FAT32 volume.** `Fat32Layout` computes a volume's geometry in 32-bit arithmetic, and
`Fat32Volume` keeps an abstract FAT and abstract cluster contents in step with the sectors
of a disk. `Fat32Chains` accounts for every cluster as free, in exactly one chain, or lost before
mounting. `Fat32Grow`, `Fat32File`, `Fat32Write` and `Fat32FileLaws` are the file operations.
`Fat32Names`, `Fat32Slots`, `Fat32DirMap`, `Fat32Dir` and `Fat32Create` take 8.3 names and directory
slots to finite maps, `Fat32Tree` ties directories, entries and chains into one tree, and `Fat32Vfs`
has the operations a user sees, with the one-directory listing cache. `Fat32View` is the volume as
users see it: the maps of all directories, the bytes a file's size covers, and the chains no name
leads to. `Fat32OnDisk` says at which bytes of which sectors links, contents and
slots are. Each operation of `Fat32Vfs` requires and restores `Valid()`, so its invariants hold over
every run, on every return path: every cluster is accounted for, every directory is well formed, every
file owns its chain alone, its size fits that chain, and the cache agrees. `Fat32Fresh` gives the state runs start
from, a freshly formatted volume, down to the sectors of a small one.

**Kernel memory.** `HeapLayout`, `HeapMemory` and `KernelHeap` are the first-fit heap: block headers,
guard words and user bytes all live in one byte memory, and the stores of `kmalloc` and `kfree` are
proved to act on the list of blocks as intended although expansion leaves gaps between blocks.
`FrameBitmap` and `FrameAllocator` are the frame bitmap, `PageTables` and `VirtualMemory` the two-level
page tables. `PageRuns` counts what giving frames to a run of pages takes, tables included; on it stand
`HeapPages`, the pages under the heap, and `AnonymousMaps`, mmap with its rollback and munmap.
`OneFrame` boots a machine with a single free frame.

**Scheduler.** `SchedulerModel` has the scheduler as a step system, `SchedulerLaws` and `SchedulerRuns`
what single steps and whole runs keep, `SchedulerRecords` what each step leaves in every task's record, and
`Scheduler` the table and its linked queue updated in place, each method taking the abstract step.

**Smaller cores.** `LineDrawing` draws lines, `MessageQueue` is a ring with removal from the middle,
`Ztar` is the shell's archive writer and its two readers, and `InternetChecksum` the IP header checksum.
`LittleEndian`, `Division` and `Common` hold what they share.

The standards behind these are the Microsoft FAT32 File System Specification 1.03 (sections "FAT
Data Structure" and "FAT Directory Structure"), section 1 of RFC 1071 and section 3.1 of RFC 791.

Some promises fail at the edges of 32-bit arithmetic or of a guard the code does not test. There the
code is kept as it is, a lemma shows a concrete case, and another says exactly when the promise
holds:

- reads are clipped to the file (`ClipExact`, `ClipWraps`), and writes report the end of their range
  (`SizeExact`, `SizeWraps`), exactly when offset plus size does not wrap;
- unlink and write update the entry that lookup found exactly when no earlier hidden entry (for write: volume
  label) carries its 11 bytes (`UnlinkExact`, `UnlinkTakesLabel`, `UpdateExact`, `UpdateTakesLabel`);
- a write that needs a first cluster and writes nothing into it loses that cluster (`Fat32Vfs.Vfs.Write`, `WriteLeaks`,
  `Fat32Fresh.FirstLeak`);
- heap requests, aligned requests and expansions get the room they asked for exactly when no sum wraps
  (`ReservedFits`, `ReservedWraps`, `AlignedFits`, `AlignedWraps`, `ExpandExact`, `ExpandWraps`);
- a page in a directory slot without a table needs a second frame, and vmm_map_page does nothing if there is none:
  kmalloc then returns a block on an unmapped page and mmap clears one, each exactly when the last free frame goes to
  such a page (`Starves`; `KernelHeap.Heap.KMalloc`, `AnonymousMaps.Mmap.MMap`, and `OneFrame.FirstAllocation` and
  `OneFrame.FirstMapping` right after boot);
- mmap covers the length exactly when its rounding does not wrap (`RangeCovers`, `RangeWraps`);
- a scheduler step keeps the invariant exactly within its guard: blocking or exiting with nothing else ready, or
  sleeping while the scheduler is disabled, leaves a current task that is not running (`StepKeeps`, `BlockAlone`,
  `SleepDisabled`);
- tar list, and tar extract, stay inside an archive and move forward exactly when its bytes meet `Walkable`, and
  `Extractable` (`ListOrderlyExact`, `ExtractOrderlyExact`, `NegativeLength`, `ListStandsStill`);
- the error term of a line fits int if `ErrorBound` does, which is exact along axes and diagonals (`BoundSuffices`,
  `BoundExact`).

`dafny verify dfyconfig.toml` checks the whole project.

## Model

| member | source | states |
|---|---|---|
| Fat32Layout.MountIsSound | kernel/fs/fat32.c:30-85 | mounting a well-formed boot sector gives a geometry whose FAT holds every link, whose areas do not overlap and whose data area ends inside the volume with less than one cluster to spare |
| Fat32Layout.MountBytes | kernel/fs/fat32.c:30-85 | which boot sectors are refused, byte by byte, and at which bytes the fields of a mounted volume stand, the root cluster included |
| Fat32Layout.FatSectorExact | kernel/fs/fat32.c:113-131 | the 32-bit sector and byte computed for a FAT entry are the exact ones, inside the FAT and inside the disk |
| Fat32Layout.ClusterSectorExact | kernel/fs/fat32.c:25-28 | the 32-bit sector computed for part of a cluster is the exact one and lies on the disk |
| Fat32Layout.SlotsDisjoint | kernel/fs/fat32_write.c:43-57 | distinct clusters have disjoint 4-byte FAT slots |
| Fat32Layout.ClustersDisjoint | kernel/fs/fat32.c:25-28 | distinct clusters occupy disjoint sector ranges, and every sector of the FAT lies before them |
| Fat32Layout.SlotWrite | kernel/fs/fat32_write.c:64-80 | rewriting one slot's sector changes that slot alone: every other slot and every cluster keeps its value |
| Fat32Layout.ClusterWrite | kernel/fs/fat32_write.c:95-111 | writing inside one cluster leaves every FAT slot and every other cluster alone |
| Fat32Layout.KeepTopBits | kernel/fs/fat32_write.c:64-80 | storing a link keeps the top four bits of the slot and replaces the low 28 |
| Fat32Volume.Volume.constructor | kernel/fs/fat32.c:30-85 | the abstract FAT and contents are what the sectors say, and the volume is consistent exactly when the given account explains the links on disk |
| Fat32Volume.Volume.NextCluster | kernel/fs/fat32.c:113-131 | the successor read from disk is the abstract FAT's: 0 from the first end mark up, and every other link, a bad-cluster mark included, as it is |
| Fat32Volume.Volume.SetCluster | kernel/fs/fat32_write.c:64-80 | one abstract FAT entry changes, every other one and all data stay, and the slot's top four bits are kept |
| Fat32Volume.Volume.AllocCluster | kernel/fs/fat32_write.c:39-62 | the lowest free cluster becomes an end of chain; 0 exactly when none is free, and then nothing changes |
| Fat32Volume.Volume.ReadCluster | kernel/fs/fat32.c:94-111 | the bytes read are the cluster's contents |
| Fat32Volume.Volume.WriteCluster | kernel/fs/fat32_write.c:95-111 | exactly one cluster's contents change; refused exactly below cluster 2 |
| Fat32Volume.Volume.FreeClusterChain | kernel/fs/fat32_write.c:82-93 | terminates wherever the links reached stay in range, cycles included, and leaves exactly the FAT that freeing step by step specifies |
| Fat32OnDisk.LinkOnDisk | kernel/fs/fat32.c:113-131 | a cluster's link is the low 28 bits of the four bytes at four times its number in the FAT, lowest first, whatever sector they fall in |
| Fat32OnDisk.ClusterByte | kernel/fs/fat32.c:25-28 | byte q of a cluster is byte q mod 512 of the sector q / 512 after the cluster's first |
| Fat32OnDisk.ByteOnDisk | kernel/fs/fat32.c:281-333 | what a chain stores is, cluster by cluster along the chain, the bytes of those sectors |
| Fat32OnDisk.SlotOnDisk | kernel/fs/fat32.c:234-279 | byte i of slot k of a directory is byte 32 k + i of what its chain stores |
| Fat32Chains.ChainAcyclic | kernel/fs/fat32.c:113-131 | a chain never meets the same cluster twice |
| Fat32Chains.SharedTail | kernel/fs/fat32.c:113-131 | two chains that meet agree from there on, so chains with different heads in one account cannot meet |
| Fat32Chains.FreeStepShrinks | kernel/fs/fat32_write.c:82-93 | each freeing step empties a slot in use or is the last: why freeing ends even on a cyclic FAT |
| Fat32Chains.FreeOnlyEmpties | kernel/fs/fat32_write.c:82-93 | freeing from any cluster of any FAT keeps or empties each slot, never anything else |
| Fat32Chains.FreeFromChain | kernel/fs/fat32_write.c:82-93 | on a chain, freeing empties exactly the chain's slots |
| Fat32Chains.AllLinksWithin | kernel/fs/fat32_write.c:82-93 | a FAT whose links are in range or end marks meets the condition for freeing to terminate, whatever its shape |
| Fat32Chains.ChainsDisjoint | kernel/fs/fat32_write.c:238-319 | different chains of an account share no cluster |
| Fat32Chains.Conservation | kernel/fs/fat32_write.c:39-93 | free clusters, the lengths of all chains and the clusters lost before mounting add up to the volume's total |
| Fat32Chains.AllocateAccounted | kernel/fs/fat32_write.c:39-62 | allocating keeps the account: one more chain of one formerly free cluster |
| Fat32Chains.LinkAccounted | kernel/fs/fat32_write.c:64-80 | linking a fresh cluster behind a chain's last keeps the account: that chain grows by one, no other changes |
| Fat32Chains.FreeAccounted | kernel/fs/fat32_write.c:82-93 | freeing a whole chain keeps the account without that chain |
| Fat32File.ReadFile | kernel/fs/fat32.c:281-333 | returns exactly the chain's bytes from offset on, up to the clipped size, across cluster boundaries |
| Fat32File.Seek | kernel/fs/fat32.c:296-306 | the walk reaches the chain's target cluster, or its end if the chain is too short |
| Fat32File.ClipExact | kernel/fs/fat32.c:281-294 | a read is clipped to the file exactly when offset plus size does not wrap |
| Fat32File.ClipWraps | kernel/fs/fat32.c:281-294 | a concrete request whose sum wraps passes the clip at full size |
| Fat32Grow.StartChain | kernel/fs/fat32_write.c:247-254 | a new chain of one formerly free cluster, or nothing changed and none free |
| Fat32Grow.NextOrExtend | kernel/fs/fat32_write.c:300-312 | the successor cluster, allocated and linked behind the end if missing; on failure nothing is changed and none is free |
| Fat32Grow.GrownTwice | kernel/fs/fat32_write.c:238-319 | growth composes: old clusters stay in front and other chains stay as they were |
| Fat32Write.SeekExtending | kernel/fs/fat32_write.c:256-274 | walks to the target cluster, lengthening the chain by free clusters; stops short only when none is free |
| Fat32Write.PatchCluster | kernel/fs/fat32_write.c:280-296 | read, patch and write back: the cluster's bytes change in the given range alone |
| Fat32Write.WriteClusters | kernel/fs/fat32_write.c:276-313 | the bytes written so far are the chain's contents with the range from offset on replaced; stops short only when the disk is full |
| Fat32Write.WriteFile | kernel/fs/fat32_write.c:238-319 | which bytes were written where, how the chain grew, the reported size, start cluster and result on every return path, disk full included |
| Fat32Write.SizeExact | kernel/fs/fat32_write.c:313-315 | for a full write past the old end, the size reported is the end of the range exactly when offset plus length does not wrap |
| Fat32Write.SizeKept | kernel/fs/fat32_write.c:313-315 | a write that ends early, is empty or ends within the file reports the old size |
| Fat32Write.SizeWraps | kernel/fs/fat32_write.c:313-315 | a concrete write of 32 bytes near 2^32 reports a size of 16 |
| Fat32FileLaws.WriteReplacesRange | kernel/fs/fat32_write.c:238-319 | in a chain that holds the old size, which every file of a valid tree has, and with offset at most that size, the first max(old size, end of the range) bytes after a write are the old bytes with the range replaced |
| Fat32FileLaws.OverwriteBytes | kernel/fs/fat32_write.c:276-313 | overwriting, byte by byte: the new bytes in the range and the old ones elsewhere |
| Fat32FileLaws.ReadAfterWrite | kernel/fs/fat32.c:281-333 | reading the range just written, with the size the write reported, gives the bytes written |
| Fat32FileLaws.OtherFilesKept | kernel/fs/fat32_write.c:238-319 | a write keeps the FAT entries, the chain and the bytes of every other chain |
| Fat32FileLaws.WriteConserves | kernel/fs/fat32_write.c:238-319 | however a write ends, the old chain is a prefix of the new one and free clusters plus chain lengths stay the same |
| Fat32Names.NameTo83 | kernel/fs/fat32_write.c:14-37 | computes the 11 bytes: base before the first dot and extension after it, upper case, cut and padded |
| Fat32Names.To83Bytes | kernel/fs/fat32_write.c:14-37 | byte by byte: the base up to the first dot from byte 0, the extension behind it from byte 8, a to z raised, spaces behind either |
| Fat32Names.FormatName | kernel/fs/fat32.c:133-149 | computes the displayed name: both fields up to their first space, a dot unless the extension is blank |
| Fat32Names.FormatBytes | kernel/fs/fat32.c:133-149 | in bytes: the base up to its first space, and a dot and the extension up to its first space if there is any of it |
| Fat32Names.NameMatch | kernel/fs/fat32.c:211-232 | true exactly when the displayed name and the pattern agree up to case over their whole lengths |
| Fat32Names.MatchesBytes | kernel/fs/fat32.c:211-232 | in bytes: same length up to the displayed form's first zero, and byte for byte equal with a to z raised |
| Fat32Names.ValidNameBytes | kernel/fs/fat32_write.c:14-37 | which names are valid, byte by byte: 1 to 8 before the first dot and 1 to 3 behind it, no zero, space or second dot, and not 0xE5 in front |
| Fat32Names.FormatUndoesTo83 | kernel/fs/fat32.c:133-149 | for valid names, formatting undoes the packing up to case and the packed form is canonical |
| Fat32Names.To83UndoesFormat | kernel/fs/fat32_write.c:14-37 | for canonical entries, packing undoes formatting exactly |
| Fat32Names.MatchIsRawEquality | kernel/fs/fat32.c:211-232 | for valid names and canonical entries, name_match is equality of the 11 bytes |
| Fat32Names.To83IgnoresCase | kernel/fs/fat32_write.c:14-37 | names that differ in case only pack alike |
| Fat32Slots.FieldBytes | kernel/fs/fat32.c:234-279 | an entry's name is bytes 0 to 10, its attributes byte 11, its cluster bytes 26, 27, 20 and 21, its size bytes 28 to 31, each lowest first |
| Fat32Slots.KindBytes | kernel/fs/fat32.c:174-191 | an entry ends the directory with a first byte 0, is deleted with 0xE5, hidden by bit 3 of the attributes and a directory by bit 4 |
| Fat32Slots.ResizedBytes | kernel/fs/fat32_write.c:212-228 | the size goes to bytes 28 to 31 and a cluster other than 0 to 26, 27, 20 and 21; no other byte changes |
| Fat32Slots.NewEntryBytes | kernel/fs/fat32_write.c:136-161 | a new entry has the name, the attributes and the cluster in those bytes and zero in all others |
| Fat32Slots.DeletedBytes | kernel/fs/fat32_vfs.c:274-281 | deleting writes 0xE5 to the first byte alone |
| Fat32Slots.FreeSlotFirst | kernel/fs/fat32_write.c:135-136 | the slot filled is the first whose first byte is 0 or 0xE5 |
| Fat32Slots.HasRawBytes | kernel/fs/fat32_write.c:212-218 | the scans of update and unlink compare the 11 bytes; they pass over deleted entries, and the first over attributes 0x0F |
| Fat32Slots.EntryIsSlice | kernel/fs/fat32.c:171-175 | entry k of a buffer is its k-th 32 bytes |
| Fat32DirMap.DirMapStands | kernel/fs/fat32.c:234-279 | a well-formed slot sequence stands for a finite map from raw names |
| Fat32DirMap.StandsUnique | kernel/fs/fat32.c:234-279 | and for only one |
| Fat32DirMap.BoundBytes | kernel/fs/fat32.c:234-279 | a name is bound exactly when some slot carries its 11 bytes and is neither an end mark nor deleted nor hidden, told from its bytes, and the binding is that slot's attribute, cluster and size bytes |
| Fat32DirMap.FindAgrees | kernel/fs/fat32.c:234-279 | find_entry on a valid name succeeds exactly on bound names and returns the entry that carries the binding |
| Fat32DirMap.ScansReach | kernel/fs/fat32_write.c:188-236 | where no earlier entry in use has its bytes, update_entry_size and the unlink scan reach the entry that find_entry reaches |
| Fat32DirMap.UpdateExact | kernel/fs/fat32_write.c:188-236 | update_entry_size reaches the live entry exactly when no earlier volume label carries its 11 bytes; long-name pieces are passed over |
| Fat32DirMap.UpdateTakesLabel | kernel/fs/fat32_write.c:212-228 | with a volume label in front of a file of the same name, find_entry finds the file and a write stores its size and cluster in the label |
| Fat32DirMap.UnlinkExact | kernel/fs/fat32_vfs.c:232-295 | the unlink scan deletes the live entry exactly when no earlier hidden entry carries the same 11 bytes |
| Fat32DirMap.UnlinkTakesLabel | kernel/fs/fat32_vfs.c:232-295 | with a volume label in front of a file of the same name, find_entry finds the file and the unlink scan takes the label |
| Fat32DirMap.CreateAdds | kernel/fs/fat32_write.c:113-186 | filling the first free slot adds one binding and leaves nothing after the end mark |
| Fat32DirMap.UpdateChanges | kernel/fs/fat32_write.c:188-236 | resizing an entry changes one binding |
| Fat32DirMap.UnlinkRemoves | kernel/fs/fat32_vfs.c:232-295 | marking an entry deleted removes one binding |
| Fat32DirMap.ExtendSlots | kernel/fs/fat32_write.c:150-186 | appending a zeroed cluster changes no binding |
| Fat32Dir.FindEntry | kernel/fs/fat32.c:234-279 | the first live matching slot of the whole chain, or none, stopping at the first zero slot |
| Fat32Dir.ListDir | kernel/fs/fat32.c:151-209 | computes the listing of the whole chain: entries in slot order up to the first zero slot, passing over deleted and hidden ones and those that start with a dot |
| Fat32DirMap.ListExact | kernel/fs/fat32.c:151-209 | an item is in the listing exactly when some bound name not starting with a dot has that formatted name, size and attributes |
| Fat32DirMap.ListOnce | kernel/fs/fat32.c:151-209 | no two items of a listing have the same name |
| Fat32DirMap.ListIs | kernel/fs/fat32.c:166-205 | item j of a listing has the formatted name, the size bytes and the attribute byte of the j-th slot that is in use and does not start with a dot |
| Fat32DirMap.ListedIsFound | kernel/fs/fat32.c:151-279 | a listed name is valid and bound to the size and attributes the listing shows |
| Fat32Dir.UpdateEntrySize | kernel/fs/fat32_write.c:188-236 | one slot gets the size in bytes 28 to 31 and a cluster other than 0 in bytes 26, 27, 20 and 21, every other byte of the directory is as before; -1 and nothing changed when there is no such slot |
| Fat32Dir.DeleteEntry | kernel/fs/fat32_vfs.c:255-290 | one slot of the directory is marked deleted; -1 and nothing changed when there is none |
| Fat32Create.CreateEntry | kernel/fs/fat32_write.c:113-186 | the directory is lengthened by a zeroed cluster only when full, the first free slot filled, a new directory given its own cluster; -1 exactly for no directory, and success exactly when the free clusters cover what is needed: one for a full directory, one for a new directory; the slot filled holds the name, the attributes and the cluster byte by byte and zeros elsewhere, and every other slot is the old one or zeros |
| Fat32Create.EntryFilled | kernel/fs/fat32_write.c:113-186 | lengthening the directory and filling a slot leave one slot filled so and every other as it was, or zero if new |
| Fat32Create.DirectoryBit | kernel/fs/fat32_write.c:142-158 | a cluster is made exactly for attributes with bit 4 |
| Fat32Create.PlacedNeeds | kernel/fs/fat32_write.c:113-186 | filling a slot takes exactly the clusters needed: one for a new directory, none for a file |
| Fat32Grow.OneTaken | kernel/fs/fat32_write.c:165-178 | a chain that grew by one took exactly one free cluster |
| Fat32Tree.KeptElsewhere | kernel/fs/fat32_write.c:238-319 | changes confined to the chains at two heads leave every other chain's clusters and contents as they were |
| Fat32Tree.FreshIsEmpty | kernel/fs/fat32_write.c:143-158 | a directory started on a zeroed cluster stands for the empty map |
| Fat32Tree.TreeWrite | kernel/fs/fat32_write.c:238-319 | writing a file's data leaves every directory's chain and slots as they were |
| Fat32Tree.PlaceMap | kernel/fs/fat32_write.c:113-186 | placing an entry keeps the directory tree and adds one binding to one directory |
| Fat32Tree.UnlinkMap | kernel/fs/fat32_vfs.c:232-295 | unlinking keeps the directory tree and takes one binding out of one directory |
| Fat32Tree.UpdateMap | kernel/fs/fat32_write.c:188-236 | updating an entry keeps the directory tree and changes one binding of one directory |
| Fat32View.TreeOneOwner | kernel/fs/fat32_vfs.c:232-295 | in a directory tree no two names, in one directory or two, are bound to the same chain |
| Fat32View.WrittenFits | kernel/fs/fat32_write.c:238-319 | the size and cluster a write records fit its chain again, disk full included |
| Fat32View.WriteOverwrites | kernel/fs/fat32_write.c:238-319 | a full write from an offset within the old size turns the file's bytes into the old ones overwritten at the offset, and its size into the larger of the old one and the end of the range |
| Fat32View.ReadSlices | kernel/fs/fat32.c:281-333 | a file whose size fits its chain has that many bytes, and a read that does not wrap is the slice of them from offset to the smaller of offset plus size and the file's size |
| Fat32View.ViewUnlink | kernel/fs/fat32_vfs.c:232-295 | taking a name and its chain away keeps all sizes fitting and makes no chain an orphan |
| Fat32View.ViewCreate | kernel/fs/fat32_vfs.c:207-230 | a new file or directory keeps all sizes fitting and makes no chain an orphan |
| Fat32View.WriteView | kernel/fs/fat32_vfs.c:112-142 | recording a write keeps all sizes fitting; before it is recorded a fresh chain is an orphan, afterwards it is not |
| Fat32Vfs.Vfs.Readdir | kernel/fs/fat32_vfs.c:144-171 | cached or not, entry i of a fresh listing for i below min(64, length), and nothing from there on |
| Fat32Vfs.ReaddirThenLookup | kernel/fs/fat32_vfs.c:144-205 | a name readdir shows is found by lookup, bound to a live entry |
| Fat32Vfs.Vfs.Lookup | kernel/fs/fat32_vfs.c:173-205 | a lookup of a valid name is a lookup in the directory's map, and the binding is the attribute, cluster and size bytes of the slot, which is in use by its bytes |
| Fat32Vfs.Vfs.Create | kernel/fs/fat32_vfs.c:207-230 | succeeds exactly when the name is unbound and the free clusters cover what is needed, and takes exactly those; then the maps of all directories gain one binding, and an empty map for a new directory; otherwise all maps stay; every chain but the directory's own keeps its clusters and contents; no chain becomes an orphan; the tree, sizes, the account of clusters and cache agreement are kept; the slot filled has, byte by byte, the name, 0x10 or 0x20, the cluster and zeros elsewhere |
| Fat32Vfs.Vfs.Unlink | kernel/fs/fat32_vfs.c:232-295 | the maps of all directories lose exactly that binding and exactly that file's chain is freed; every other chain keeps its clusters and contents and none becomes an orphan; -1 exactly for missing names and -2 exactly for directories, with nothing changed |
| Fat32Vfs.Vfs.Write | kernel/fs/fat32_vfs.c:112-142 | of all directories' maps one binding changes, to the size and cluster written, or none; the file's bytes become the old ones overwritten at the offset for a full write within the size and without wrap; a result of 0 or less leaves all maps; the fresh chain is orphaned exactly when the file had none, a cluster was taken and the result is 0 or less; every chain but the file's and the directory's keeps its clusters and contents; -1 from the file layer exactly when a first cluster is needed and none is free; the slot written has the size in bytes 28 to 31 and the start cluster in 26, 27, 20 and 21, and no other byte of the directory changes |
| Fat32Vfs.Vfs.Record | kernel/fs/fat32_vfs.c:125-140 | the entry's bytes get size and start cluster and no other byte of the directory changes, the cache is dropped, nothing else in the tree changes |
| Fat32Vfs.Vfs.Read | kernel/fs/fat32_vfs.c:99-110 | succeeds exactly for a file bound to the name; the file has as many bytes as its size says, and a request that does not wrap returns exactly those from offset to the smaller of offset plus size and the file's size; size and cluster are the bytes 28 to 31 and 26, 27, 20, 21 of a slot in use with the name's bytes |
| Fat32Vfs.Vfs.Balance | kernel/fs/fat32_write.c:39-93 | in every reachable state free clusters plus all chain lengths plus clusters lost before mounting equal the total |
| Fat32Vfs.WriteThenRead | kernel/fs/fat32_vfs.c:99-142 | a full write to a name followed by a read of the same range returns the bytes written |
| Fat32Vfs.WriteLeaks | kernel/fs/fat32_vfs.c:125-140 | one cluster free, a file without a chain and an offset beyond a cluster: the write returns 0, takes the cluster, and leaves it an orphan |
| Fat32Fresh.FreshAccounted | kernel/fs/fat32.c:30-85 | a volume with only its root cluster in use is fully accounted for, with nothing lost |
| Fat32Fresh.MountFresh | kernel/fs/fat32.c:30-85 | a volume whose root is one zeroed cluster and whose other clusters are free mounts to a valid file system with an empty root directory and no orphans |
| Fat32Fresh.SmallMounts | kernel/fs/fat32.c:30-85 | a concrete boot sector is well formed and mounts with two clusters |
| Fat32Fresh.FirstFile | kernel/fs/fat32_vfs.c:207-230 | on that volume a first file can be created under any valid name; it is then the only binding, and one cluster is left |
| Fat32Fresh.FirstLeak | kernel/fs/fat32_vfs.c:125-140 | a write to that file beyond its first cluster returns 0 and leaves the last cluster an orphan |
| HeapLayout.ReservedFits | kernel/mm/heap.c:84-88 | the reservation holds the request and its guard word exactly for requests up to 0xFFFFFFEC |
| HeapLayout.ReservedIs | kernel/mm/heap.c:84-88 | the reservation is the least multiple of 16 that holds the request and four bytes, and at least 16 |
| HeapLayout.ReservedWraps | kernel/mm/heap.c:84-88 | a concrete larger request is given 16 bytes |
| HeapLayout.AlignedFits | kernel/mm/heap.c:161-175 | the reservation behind an aligned request holds the range, the room to align it and the guard word exactly when the sum is at most 0xFFFFFFEC |
| HeapLayout.AlignedWraps | kernel/mm/heap.c:161-175 | a concrete aligned request whose sum wraps is given 16 bytes |
| HeapLayout.ExpandExact | kernel/mm/heap.c:46-64 | the computed new end lies past the bytes asked for exactly when the sum does not wrap |
| HeapLayout.ExpandWraps | kernel/mm/heap.c:46-64 | a concrete request whose sum wraps takes the heap's end to the first page |
| HeapLayout.ExtentsDisjoint | kernel/mm/heap.c:78-159 | no byte belongs to two blocks, and a live block's bytes and guard word lie inside it and inside the heap |
| HeapLayout.FirstFitLowest | kernel/mm/heap.c:90-122 | first fit is the lowest-address free block that fits, and finds one if there is one |
| HeapLayout.CarveKeeps | kernel/mm/heap.c:92-111 | splitting and marking a block keeps order, disjointness and no two free neighbours, and adds one to the live count and the user bytes to the byte count |
| HeapLayout.CarveServes | kernel/mm/heap.c:93-121 | a block is cut exactly when 40 bytes more than needed are in it, the rest less a header standing free right behind; otherwise it is given whole; no other block changes |
| HeapLayout.ServedTwice | kernel/mm/heap.c:90-121 | after a cut the rest is where the next request that fits goes |
| HeapLayout.AppendKeeps | kernel/mm/heap.c:124-147 | so does a new block at the old end |
| HeapLayout.MergeAcrossGap | kernel/mm/heap.c:210-224 | a block merged with its neighbour across a page-tail gap ends short of the neighbour's end by exactly the gap, so it overlaps nothing |
| HeapLayout.ReleaseKeeps | kernel/mm/heap.c:204-225 | releasing keeps order and disjointness, leaves no two free neighbours, and takes exactly that block out of both counts |
| HeapLayout.ReleaseGives | kernel/mm/heap.c:205-224 | the freed block, with the free neighbours it has and their headers, becomes one free block; no other block changes |
| HeapLayout.BytesFit | kernel/mm/heap.c:113-117 | live user bytes plus 28 per live block fit between the heap's bounds, so neither counter wraps |
| HeapMemory.PutGet | kernel/mm/heap.c:10-17 | a 24-byte header stored is the header loaded |
| HeapMemory.LinkedBytes | kernel/mm/heap.c:8-19 | a header, byte by byte: size, user's size, magic number, next and previous header, and whether it is free, each lowest byte first |
| HeapMemory.SplitLinked | kernel/mm/heap.c:93-106 | the stores of a split turn the doubly linked list of headers in memory into that of the split blocks |
| HeapMemory.MergeLinked | kernel/mm/heap.c:210-216 | the stores of a merge turn the list in memory into that of the merged blocks |
| HeapMemory.AppendLinked | kernel/mm/heap.c:130-147 | the stores of an append turn the list in memory into that with the new block last |
| HeapMemory.MarkLinked | kernel/mm/heap.c:108-109 | changing a block's mark and size fields keeps the list |
| HeapMemory.SplitUntouched | kernel/mm/heap.c:93-106 | a split stores into no live block's payload or guard word and nowhere outside the heap |
| HeapMemory.MergeUntouched | kernel/mm/heap.c:210-224 | neither does a merge |
| KernelHeap.Heap.constructor | kernel/mm/heap.c:38-44 | an empty valid heap at the 16-byte aligned start, its end there and its maximum the size further on |
| KernelHeap.Heap.Expand | kernel/mm/heap.c:46-64 | returns 0 exactly when the end stays under the maximum and there are frames for the new pages and their missing tables, or one too few of which the last page's table would be; in the first case every page below the new end is mapped to a frame of its own, in the second every one but the last; a failure within the maximum has used up all frames; frames in use keep their contents |
| HeapPages.MapPages | kernel/mm/heap.c:54-61 | the page loop ends well exactly when the frames suffice for pages and tables, or fall one short at the last page's table; otherwise no frame is left |
| HeapPages.OwnAfter | kernel/mm/heap.c:54-61 | however it ends, the heap's pages are mapped to pairwise distinct frames, none free and none holding a page table |
| HeapPages.StarvedPage | kernel/mm/vmm.c:36-41 | the page that got a frame but no table is not mapped |
| HeapPages.ByteMapped | kernel/mm/heap.c:46-64 | every byte of a valid heap lies on a page that is mapped for the kernel to read and write: the low three bits of its entry are 3 |
| OneFrame.FirstAllocation | kernel/kernel.c:39-40 | booted with one free frame, the first kmalloc returns a pointer to an unmapped page |
| KernelHeap.Heap.KMalloc | kernel/mm/heap.c:78-159 | the pointer and the block list after every path: first fit, split, append after expansion, or failure with memory and counters unchanged; live payloads and everything outside the heap untouched; the guard word set; all pages of the heap stay mapped, except exactly when the expansion ends a table short, and then the new block reaches into the one unmapped page; told without the list functions: a block that fits is cut exactly when it has need + 40 bytes, has then size need and a free block of the rest behind it; a new end is the first page boundary that holds the new block |
| KernelHeap.ServeTwo | kernel/mm/heap.c:78-121 | two requests that one free block has room for, headers included, when it is the first that fits either, are served from it one behind the other, and the heap does not grow |
| KernelHeap.Heap.KFree | kernel/mm/heap.c:187-225 | a pointer to a marked block, which is live: the block list is the released one, remaining payloads are untouched, and the warning is printed exactly when the guard word is damaged; an unmarked pointer changes nothing; the released list is told block by block: one free block for the freed one, its free neighbours and their headers |
| KernelHeap.Heap.Store | kernel/mm/heap.c:187-225 | a user's store in its own payload, even past its size, keeps the heap valid and every other payload |
| KernelHeap.GuardAfterStore | kernel/mm/heap.c:66-76 | a store within the user's own bytes cannot break the guard word |
| KernelHeap.GuardBytes | kernel/mm/heap.c:66-76 | the guard word is intact exactly when the four bytes behind the user's are BE BA FE CA |
| KernelHeap.Heap.MarkedBytes | kernel/mm/heap.c:187-196 | a pointer is taken for a block exactly when the bytes 16 below it are EF BE AD DE |
| KernelHeap.GuardKept | kernel/mm/heap.c:66-76 | a guard word stays intact, or damaged, while its block's payload is untouched |
| KernelHeap.TotalsStep | kernel/mm/heap.c:113-117 | the wrapped totals of allocations and frees always differ by the number of live blocks |
| KernelHeap.Heap.KMallocAligned | kernel/mm/heap.c:161-175 | the block list as after kmalloc of the padded size; an aligned range inside the fresh block, the block's pointer in the word before it and the guard intact |
| KernelHeap.Heap.KFreeAligned | kernel/mm/heap.c:227-235 | that stored pointer leads back to the block, which is released as by kfree |
| KernelHeap.Heap.CheckOverflow | kernel/mm/heap.c:177-185 | reports exactly whether the guard word is intact |
| KernelHeap.Heap.CheckLeaks | kernel/mm/heap.c:248-251 | the number of live blocks, even after the totals have wrapped |
| SchedulerLaws.StepKeeps | kernel/sched/scheduler.c:113-309 | a step keeps the queue exactly the READY non-idle tasks, without duplicates, and the current task the only RUNNING one, if and only if its guard holds |
| Scheduler.BlockAlone | kernel/sched/scheduler.c:245-252 | after scheduler_init alone, blocking breaks the invariant: the current task is not running |
| Scheduler.SleepDisabled | kernel/sched/scheduler.c:262-276 | so does sleeping while the scheduler is disabled, although another task is ready |
| SchedulerLaws.DispatchKeeps | kernel/sched/scheduler.c:182-215 | the front task becomes current and a running predecessor goes to the back |
| SchedulerLaws.WakeExact | kernel/sched/scheduler.c:232-238 | the tick's scan appends exactly the sleepers whose time has come and readies them alone |
| SchedulerLaws.DueExact | kernel/sched/scheduler.c:232-238 | these are in ascending slot order, each once |
| SchedulerLaws.LeaveKeeps | kernel/sched/scheduler.c:245-276 | a current task that blocks, sleeps or exits leaves the invariant intact exactly when another task is ready |
| SchedulerRuns.RunKeeps | kernel/sched/scheduler.c:113-309 | every run within the guards keeps the invariant |
| SchedulerRuns.StepMoves | kernel/sched/scheduler.c:182-243 | no step lets a task overtake another: the queue keeps its order and loses only its front, to the processor |
| SchedulerRuns.WaitsExactly | kernel/sched/scheduler.c:182-215 | over any run, the task at position k is current exactly at the (k+1)-th turn and not before |
| SchedulerRuns.QueueBounded | kernel/sched/scheduler.c:37-65 | at most 63 tasks wait, so a ready task runs within 63 turns |
| SchedulerRuns.SleepsUntilWakeTime | kernel/sched/scheduler.c:217-276 | over any run with no tick at or after its wake time a sleeper stays asleep and unqueued |
| SchedulerRuns.TickWakes | kernel/sched/scheduler.c:217-243 | the first tick at or after it queues the task or runs it |
| SchedulerRecords.SleepRecords | kernel/sched/scheduler.c:262-276 | the caller is asleep with wake time now + ms and out of the queue, the front task runs, and no other record changes |
| SchedulerRecords.SleepsExactly | kernel/sched/scheduler.c:217-276 | from there over every run without a tick at or after now + ms it stays asleep and unqueued, and the first such tick queues or runs it |
| SchedulerRecords.BlockRecords | kernel/sched/scheduler.c:245-252 | the caller is blocked for the reason given, the front task runs, and no other record changes |
| SchedulerRecords.UnblockRecords | kernel/sched/scheduler.c:254-260 | a blocked task is ready, with reason 0, at the end of the queue; any other call changes nothing |
| SchedulerRecords.ExitRecords | kernel/sched/scheduler.c:289-304 | the caller is a zombie, the front task runs, and no other record changes |
| SchedulerRecords.CreateRecords | kernel/sched/scheduler.c:113-166 | the lowest unused slot gets the next number, is ready with times 0, and waits last; with no such slot or no stack nothing changes |
| SchedulerRecords.DispatchRecords | kernel/sched/scheduler.c:182-215 | the front task runs, a running predecessor is ready, and no other record changes |
| SchedulerRecords.TickRecords | kernel/sched/scheduler.c:217-243 | the current task is charged one tick, exactly the sleepers due are ready behind the others, and unless the kernel thread runs or nobody waits the front task runs and its predecessor waits last; no other record changes |
| Scheduler.Scheduler.constructor | kernel/sched/scheduler.c:77-111 | the state after scheduler_init: thread 0 running, idle in slot 1 ready but not queued if it got a stack, every other slot unused, scheduling disabled, and the invariant holds |
| Scheduler.Scheduler.ReadyQueueAdd | kernel/sched/scheduler.c:37-48 | the linked ready queue gets the task at its end |
| Scheduler.Scheduler.ReadyQueuePop | kernel/sched/scheduler.c:50-65 | the linked ready queue loses its front; NONE exactly when empty |
| Scheduler.Scheduler.TaskCreate | kernel/sched/scheduler.c:113-166 | the in-place table takes the abstract creation step, in the lowest unused slot |
| Scheduler.Scheduler.Force | kernel/sched/scheduler.c:182-215 | the in-place table and links take the abstract dispatch step |
| Scheduler.Scheduler.OnTick | kernel/sched/scheduler.c:217-243 | the in-place scan and dispatch take the abstract tick step |
| Scheduler.Scheduler.TaskBlock | kernel/sched/scheduler.c:245-252 | takes the abstract blocking step, in place; SchedulerRecords.BlockRecords says what that leaves in every record |
| Scheduler.Scheduler.TaskUnblock | kernel/sched/scheduler.c:254-260 | takes the abstract unblocking step, in place; SchedulerRecords.UnblockRecords says what that leaves in every record |
| Scheduler.Scheduler.TaskSleep | kernel/sched/scheduler.c:262-276 | takes the abstract sleeping step, in place; SchedulerRecords.SleepRecords says what that leaves in every record |
| Scheduler.Scheduler.TaskExit | kernel/sched/scheduler.c:289-304 | takes the abstract exit step, in place; SchedulerRecords.ExitRecords says what that leaves in every record |
| FrameBitmap.BitUpdates | kernel/mm/pmm.c:18-20 | setting or clearing a bit of a word changes that bit alone |
| FrameBitmap.FreeUpdates | kernel/mm/pmm.c:18-20 | one bit of the bitmap is one frame of the free set |
| FrameBitmap.UsedBits | kernel/mm/pmm.c:18-20 | frame f is bit f mod 32 of word f / 32, counted from the lowest, and used when it is set |
| FrameBitmap.WordFull | kernel/mm/pmm.c:64-65 | a word is 0xFFFFFFFF exactly when none of its 32 frames is free |
| FrameAllocator.Pmm.constructor | kernel/mm/pmm.c:24-56 | the free frames are exactly those from 1 MB up past the kernel and the bitmap; the count and the set tail bits agree |
| FrameAllocator.KernelEndIs | kernel/mm/pmm.c:50-51 | the first free frame is behind the first page boundary that clears kernel and bitmap |
| FrameAllocator.MemoryIs | kernel/mm/pmm.c:26-34 | memory is the upper memory told and one MB, or 256 MB if none is told or the sum wraps to 0 |
| FrameAllocator.Pmm.Alloc | kernel/mm/pmm.c:58-81 | the lowest free frame leaves the free set; 0 with nothing changed when none is free |
| FrameAllocator.Pmm.FreeFrame | kernel/mm/pmm.c:83-94 | the frame joins the free set if the allocator knows it, and the count stays exact |
| FrameAllocator.Pmm.MarkUsed | kernel/mm/pmm.c:96-107 | the frame leaves the free set and the count stays exact |
| PageTables.SetEntry | kernel/mm/vmm.c:55-56 | writing one entry of one table changes one page's translation and keeps tables in distinct frames in use |
| PageTables.NewTable | kernel/mm/vmm.c:37-50 | a fresh zeroed table changes no translation |
| PageTables.AllowUser | kernel/mm/vmm.c:51-53 | marking a directory entry for user access changes no translation |
| PageTables.UserUnderUser | kernel/mm/vmm.c:43-53 | a user page always sits under a user directory entry |
| PageTables.PageEntry | kernel/mm/vmm.c:56 | the entry is present, names the frame and has the user bit exactly as asked |
| PageTables.PageEntryBits | kernel/mm/vmm.c:56 | the entry is the frame's address and the low twelve bits of flags with bit 0 set |
| PageTables.TableEntryBits | kernel/mm/vmm.c:43-53 | a directory entry is the table's address with PRESENT and WRITE, and USER exactly if flags have it |
| PageTables.LookupBits | kernel/mm/vmm.c:78-95 | a page is mapped exactly when the two words on the way to it are odd, and to the second of them |
| VirtualMemory.Indices | kernel/mm/vmm.c:32-33 | the directory and table index are the two base-1024 digits of the page number |
| VirtualMemory.Vmm.constructor | kernel/mm/vmm.c:20-28 | the boot directory with slot 1023 pointing to itself, every translation below it unchanged |
| VirtualMemory.Vmm.MapPage | kernel/mm/vmm.c:30-59 | exactly one page's translation changes, also when a table is made; a missing table with no free frame leaves everything unchanged; data frames keep their contents; the entry written is the address rounded down plus the low twelve bits of flags with bit 0 set, and the slot of a new table has PRESENT, WRITE and, as asked, USER |
| VirtualMemory.Vmm.UnmapPage | kernel/mm/vmm.c:61-76 | exactly one page becomes unmapped |
| VirtualMemory.Vmm.GetPhysical | kernel/mm/vmm.c:78-95 | the translated address, or 0 for an unmapped page |
| VirtualMemory.Vmm.IsMapped | kernel/mm/vmm.c:97-110 | true exactly for mapped pages |
| AnonymousMaps.RangeCovers | kernel/mm/mmap.c:87-101 | the rounded range covers the length asked for exactly when nothing wraps |
| AnonymousMaps.RangeIs | kernel/mm/mmap.c:87-101 | and it ends then at the first page boundary that covers the length, all its pages visited |
| AnonymousMaps.RangeWraps | kernel/mm/mmap.c:87-101 | a concrete length that wraps is reported as mapped with no page mapped |
| AnonymousMaps.Mmap.MMap | kernel/mm/mmap.c:80-160 | known beforehand: returns the address exactly when the frames suffice for the pages and the missing tables, faults exactly when some page would get the last frame with its table missing, and returns MAP_FAILED otherwise; every page is then backed by a distinct, formerly free, zeroed frame under one new area; or translations and areas are as before and of the free frames exactly those of the tables made are gone; frames in use keep their contents in all cases; the low three bits of every page's entry are then 7 |
| AnonymousMaps.Mmap.AcceptsIs | kernel/mm/mmap.c:80-107 | a request gets as far as the page loop exactly when its length is not 0, its range ends by 0x80000000, and a process has one of 32 areas free |
| AnonymousMaps.RunWritable | kernel/mm/mmap.c:109-112 | every page of a mapped run is the user's to read and write: the low three bits of its entry are 7 |
| OneFrame.FirstMapping | kernel/mm/mmap.c:114-149 | booted with one free frame, the first mmap faults at its first page |
| OneFrame.Boot | boot/multiboot.asm:89-100 | the boot directory, with tables in slots 0 and 768 and itself in slot 1023, and one frame free make a valid state |
| AnonymousMaps.Mmap.MapRange | kernel/mm/mmap.c:115-151 | the page loop with its rollback: which of the three endings it is, decided by the frames free and the slots without tables, and the state each one leaves |
| AnonymousMaps.EndsExactly | kernel/mm/mmap.c:115-151 | the state at the end determines which of the three conditions held at the start, and they exclude each other |
| AnonymousMaps.RunGives | kernel/mm/mmap.c:175-184 | unmapping a mapped run gives back its frames and only them |
| PageRuns.RunNext | kernel/mm/vmm.c:30-59 | one page more keeps a run of pages on distinct, formerly free frames, also when its table is made on the way |
| PageRuns.RunOne | kernel/mm/vmm.c:30-59 | allocating a frame and mapping a page to it: one page more, or no frame, or exactly the last frame gone to a page without a table |
| PageRuns.RunCount | kernel/mm/pmm.c:58-81 | the frames a run has taken are its pages plus the directory slots it found without a table |
| PageRuns.StarvesHere | kernel/mm/vmm.c:36-41 | where a run starves the frames cover the pages before and not the page itself, so it can starve at one page only |
| AnonymousMaps.Mmap.Rollback | kernel/mm/mmap.c:118-123 | unmapping and freeing the pages done so far restores the address space, and the free frames but for the tables made |
| AnonymousMaps.Mmap.CreateArea | kernel/mm/mmap.c:51-71 | the first free slot holds the new area |
| AnonymousMaps.Mmap.FindVma | kernel/mm/mmap.c:38-49 | the first area in use that holds the address |
| AnonymousMaps.Mmap.MUnmap | kernel/mm/mmap.c:162-197 | the range's pages and only they are unmapped, their frames given back exactly if bit 0 of the area's flags is clear, the area removed or trimmed as the four cases say, and all contents kept |
| AnonymousMaps.Mmap.MapThenUnmap | kernel/mm/mmap.c:80-197 | mapping a private range and unmapping it restores translations and areas, and the free frames but for the tables made |
| LineDrawing.StepStaysClose | kernel/drivers/framebuffer/framebuffer.c:388-396 | the step chosen by the error term stays within half a pixel, advances the major axis by one and keeps the doubled error term and the one between the updates within an explicit bound |
| LineDrawing.CloseAtEnd | kernel/drivers/framebuffer/framebuffer.c:386 | a close position at full length is the end point |
| LineDrawing.DrawLine | kernel/drivers/framebuffer/framebuffer.c:366-398 | for any end points exactly max(dx, dy) steps from start to end point, each as the error term says and every visited position within half a pixel; word y * stride + x gets the color exactly when (x, y) is on the path, and every other word is as before; no term overflows int if ErrorBound fits it |
| LineDrawing.BoundSuffices | kernel/drivers/framebuffer/framebuffer.c:366-398 | ErrorBound within int keeps every error term along the path within int |
| LineDrawing.BoundExact | kernel/drivers/framebuffer/framebuffer.c:366-398 | along an axis or a diagonal no term overflows exactly when ErrorBound fits; on any line twice the difference of the distances must |
| LineDrawing.VisitedExactly | kernel/drivers/framebuffer/framebuffer.c:382-384 | a screen pixel's place in the buffer is written exactly when the pixel is on the path |
| LineDrawing.PaintedWhere | kernel/drivers/framebuffer/framebuffer.c:382-384 | pixel (x, y) of the screen is word y * stride + x: it has the color exactly when (x, y) is on the path, and a word that is no pixel is as before |
| MessageQueue.MsgQueue.Send | kernel/ipc/ipc.c:365-393 | appends the message, or -11 when 32 are queued and -22 for an over-long text or a queue not in use, with nothing changed |
| MessageQueue.MsgQueue.Receive | kernel/ipc/ipc.c:395-433 | removes the first message of the type, or the first of all for type 0, and copies it cut to the size given; -11, -42 and -22 with nothing changed |
| MessageQueue.MsgQueue.Remove | kernel/ipc/ipc.c:418-426 | the circular shift takes one message out of the middle and keeps the tail 32-modular behind the rest |
| MessageQueue.WithoutKeeps | kernel/ipc/ipc.c:418-422 | removal keeps every other message, in order |
| LittleEndian.GetBytes32 | kernel/shell/cmds/cmd_utils.c:1000-1014 | loading a stored 32-bit value gives it back |
| LittleEndian.BytesGet32 | kernel/shell/cmds/cmd_utils.c:1000-1014 | storing a loaded value gives the bytes back |
| LittleEndian.LowByteFirst | kernel/shell/cmds/cmd_utils.c:1000-1014 | a stored value is the sum of its bytes times 1, 256, 65536 and 2^24, in that order |
| LittleEndian.LoadAdds | kernel/shell/cmds/cmd_utils.c:1000-1014 | and so is a loaded one |
| Ztar.Create | kernel/shell/cmds/cmd_utils.c:1080-1129 | the buffer sized in the first pass is filled with exactly the archive of the files among the arguments, in order |
| Ztar.PackedIs | kernel/shell/cmds/cmd_utils.c:1105-1113 | the files packed are the arguments that are files, each under its path, in the order given |
| Ztar.List | kernel/shell/cmds/cmd_utils.c:1043-1074 | shows exactly the entries the format defines on every walkable archive, or refuses what has no magic |
| Ztar.Extract | kernel/shell/cmds/cmd_utils.c:1199-1244 | writes exactly the entries whose data is complete, on every archive on which its walk is orderly, or refuses what has no magic |
| Ztar.ReadBytes | kernel/shell/cmds/cmd_utils.c:1052-1244 | what both readers make of the bytes at an offset: the name's length in four bytes, the name, the data's length in four bytes, the data, and the next entry |
| Ztar.ShownBytes | kernel/shell/cmds/cmd_utils.c:1062-1066 | a name is shown up to its first zero and to 63 bytes at most |
| Ztar.RoundTrip | kernel/shell/cmds/cmd_utils.c:1080-1244 | parsing what create wrote yields the input list for both readers, names cut at 63 characters |
| Ztar.RoundTripExact | kernel/shell/cmds/cmd_utils.c:1199-1244 | exactly the input list when no name is longer |
| Ztar.ListMatchesExtract | kernel/shell/cmds/cmd_utils.c:1052-1244 | on a walkable archive both readers stay inside it, never go back, and see the same entries, except that list also shows a last entry whose data is cut off |
| Ztar.ListOrderlyExact | kernel/shell/cmds/cmd_utils.c:1052-1074 | list, in int arithmetic, reads inside the archive, overflows nothing and only goes forward exactly when the archive is walkable, which its bytes decide |
| Ztar.ExtractOrderlyExact | kernel/shell/cmds/cmd_utils.c:1209-1244 | extract reads inside the archive, overflows nothing and goes on only forward exactly on the archives Extractable describes from their bytes; its walk writes the entries whose data is complete |
| Ztar.BothOrderly | kernel/shell/cmds/cmd_utils.c:1052-1244 | both readers' walks are orderly exactly on walkable archives |
| Ztar.NegativeLength | kernel/shell/cmds/cmd_utils.c:1052-1244 | twelve bytes whose data length is 2^31: list goes on at a negative offset, extract writes from beyond the archive |
| Ztar.ListStandsStill | kernel/shell/cmds/cmd_utils.c:1052-1074 | a name length of -4 as int leads list back to the same offset, for ever |
| Ztar.CreateThenExtract | kernel/shell/cmds/cmd_utils.c:1080-1244 | create followed by extract gives the files back |
| InternetChecksum.SumFits | services/net/ip.c:19-29 | the accumulator stays below 2^32 for every 16-bit length |
| InternetChecksum.FoldOnce | services/net/ip.c:31-33 | a fold keeps the one's complement sum and shrinks the accumulator |
| InternetChecksum.FoldedUnique | services/net/ip.c:31-33 | the value modulo 65535 and whether it is zero determine the folded sum |
| InternetChecksum.Checksum | services/net/ip.c:17-36 | computes the complement of the one's complement sum of the words |
| InternetChecksum.ChecksumIs | services/net/ip.c:17-36 | words are taken low byte first, a last odd byte alone, and sum and checksum add up to a positive multiple of 65535 |
| InternetChecksum.StoredChecksOut | services/net/ip.c:54-58 | storing the checksum in a zeroed aligned field makes the checksum of the whole 0 |
| InternetChecksum.OneWordDetected | services/net/ip.c:17-36 | a change of one aligned word goes unseen only between 0x0000 and 0xFFFF |
| InternetChecksum.BuildHeader | services/net/ip.c:43-58 | the header of ip_send carries each field at its bytes, highest first, and checks out |

## Left out

- Sector input and output and buffer allocation are taken to succeed; one volume is mounted at a time.
- Only the first copy of the FAT is written, as in the code, so nothing is said about the others.
- `fat32_vfs_finddir` copies cluster and size into a node; reads, writes and unlinks here look the name up afresh instead of using an older node.
- Fat32Vfs.Vfs.Create: the name is valid and no hidden entry has its 11 bytes; with one, later writes and unlinks of the file take the hidden entry instead (UpdateExact, UnlinkExact).
- Fat32Volume.Volume.SetCluster: clusters past the limit, which the code writes outside the FAT without a check; no caller passes one on a consistent volume.
- Fat32Dir.DeleteEntry: directories with entries after an end mark, where the code's scan goes on in the next cluster; a well-formed directory has none.
- Fat32Vfs.Vfs.Write: says what the code does when the disk fills up, which includes keeping the old size and, for a fresh file with nothing written, leaving its new cluster an orphan. Counts of 2^31 or more are the negative int the code returns.
- Fat32Volume.Volume.AllocCluster: writes the end mark over the slot's top four bits, unlike Fat32Volume.Volume.SetCluster; no claim is made that they survive.
- Buffers handed to file operations are values, so aliasing between them is not modelled.
- New data clusters are not zeroed, so contents past the old size are claimed only for offsets up to it.
- Disks whose boot sector violates WellFormedBoot, long file names, renaming and removing directories.
- KernelHeap.Heap.KMalloc: requests above 0xFFFFFFEC and expansions past 2^32 are excluded by precondition, which ReservedFits and ExpandExact show to be exact.
- KernelHeap.Heap.KMallocAligned: sums above 0xFFFFFFEC are excluded by precondition; with them the code hands out a short block (AlignedFits, AlignedWraps).
- KernelHeap.Heap.KFree: a marked pointer is a live one; freeing twice, and pointers below 24, are not modelled.
- KernelHeap.Heap.Expand: sums past 2^32 are excluded by precondition (ExpandExact).
- KernelHeap.Heap.constructor: the heap's range lies below directory slot 1023, as the kernel's does; above it the heap would overwrite the page tables.
- After a kmalloc that outran its page tables nothing further is claimed: stores to the unmapped page fault.
- The heap's bytes and the words of the frames under it are two views that are not connected; the pages are shown to be the heap's own.
- Frames given out by a heap expansion that then fails stay mapped above the heap's end, in the code and here.
- Context switching, stacks, priorities and their inheritance; `scheduler_lock` is never set by the code and stands for 0.
- The clock is a parameter of ticks and sleeps; sums with it wrap at 64 bits as in the code.
- Hardware effects on page tables (accessed and dirty bits, the TLB) and addresses in directory slot 1023.
- AnonymousMaps.Mmap.MMap: the range's pages are unmapped at the call, as the address always moves on; what follows a fault is not modelled.
- AnonymousMaps.Mmap.MUnmap: the range lies below directory slot 1023, and its pages hold known frames other than 0 and the page tables; a munmap from the middle of an area leaves the area whole, as in the code.
- MAP_FIXED, mprotect, copy-on-write, demand paging and shared memory.
- LineDrawing.DrawLine: the error term is unbounded; where TermsFit fails the code's int overflows; the framebuffer is present; dirty-rectangle tracking is not modelled.
- The table of message queues and its ids; one queue is modelled. Pipes add only easy members next to it.
- Ztar.List: only walkable archives, exactly those on which it stays inside and moves forward (ListOrderlyExact); other archives make the code read elsewhere, which is not modelled past the first step.
- Ztar.RoundTrip: archives shorter than 2^31 - 4, as the reader's last `offset + 4` overflows int beyond.
- Ztar.Extract: only archives on which its walk is orderly (ExtractOrderlyExact); the files are the writes in order; creating them in the directory is taken to succeed.
- Sending packets beyond the IP header; TCP, UDP, ARP and their checksums.
- Drivers, interrupts, console, shell parsing, processes, signals and locks.
