# Storage, links and rings, verified

A Dafny model of the parts of this repository that keep state and must not lose any of it:

- the FatFs storage stack of the boot ROM (`bootrom/ff.c`): the one-sector write-back window, the packed FAT, the
  cluster allocator, files as byte sequences (`f_read`, `f_write`, `f_lseek`, `f_truncate`), the exFAT bitmap and lazily
  written links, the fast-seek link map, long names, the wildcard matcher, mounting and formatting;
- the boot ELF loader (`bootrom/bootrom.c`);
- the sense-reversing barrier (`generators/riscv-boom/util/csmith/sources/util.h`);
- the descriptor rings of the AXI Ethernet driver (`patches/fpga-axi-eth.c`);
- the 10GBASE-R and XGMII sources and sinks (`ethernet/verilog-ethernet/tb/baser_serdes_ep.py`, `xgmii_ep.py`).

`dafny verify dfyconfig.toml` checks all of it.

## How it is built

`ff.c` is modelled with both the read and the write side present (`FF_FS_READONLY` 0), the tiny window
(`FF_FS_TINY` 1), 512-byte sectors and 64-bit sector numbers. The objects the C code updates are classes:
`Storage.Drive` (a sequence of sectors whose transfers may fail), `Volume.FatFs` (the window and the allocation hints),
`FileRead.Fil`, `ExFat.FfObj`, `ExFiles.ExFil`, `Ring.PacketRing`, `AxiEth.Nic`, `XgmiiLink.Source`, `Xgmii.Sink`,
`BaseR.Source`, `BaseR.Deserializer`, `Elf.File`. Functions that take a `FATFS *` are methods with a `FatFs` parameter.

The layers refine each other. `FatFs.View()` is the volume as the file system sees it: the drive with the dirty window
laid over its sector and the second FAT left out, since that is only ever written. `Table(fs)` is the FAT as a
sequence of links read from the view. `IsChain(t, s)` says that the links spell the clusters of `s`; `Partition(t, m)`
that the FAT is a set of disjoint acyclic chains covering every cluster in use. `Fil.Content()` is a file: the
clusters of its chain in the view, cut at the file size. Every operation's contract is about these, so window moves,
packed entries and sector addresses do not show above their own layer. `Grew` says what a write may do to the volume:
the chain grows by free clusters and nothing outside the chain and the FAT changes; `OtherFile`, `StepOthers` and
`RunOthers` draw the consequence for every other file. `OpenFiles` puts the calls together: `RunCalls` performs any
sequence of `f_read`, `f_write`, `f_lseek` and `f_truncate` calls on any number of open `Fil` objects, and each call
moves the cursor of its own file on its own byte sequence and nothing else.

An error of the drive is any result of a transfer that reports failure; after it the contracts promise the window's
consistency and nothing about the interrupted operation. A drive may be `reliable`, when no transfer within it fails;
every operation's contract says which errors remain then: none for reading, truncating and allocating on exFAT, and
for writing only a FAT with an entry of value 1, which no operation stores (`Excused`). `copyLost` records a failed
write to the second FAT, which the code ignores. Every method keeps `FatFs.Valid()`, which says that on a reliable
drive nothing was lost, so the FAT copies agree after any of them (`ReliableCopies`). Likewise an `Elf.File` may be
`sound`, and a turn of the interrupt handler has a number of receive buffers that can be allocated.

The exFAT model separates the object's fields (`ExFat.Lazy`) from the FAT. `Spells(t, o, ch)` says that fields and FAT
together determine the chain; the allocator keeps it, `ExLinkFollows` says exactly where `get_fat` can rely on it, and
`LazyLinksSpell` that filling in the missing links after any run of allocations yields the plain chain. `ExFiles` does
this with the methods themselves: writes at the ends of any number of files and syncs in any order.

The barrier is a state machine over its atomic accesses, for any number of threads. The rings count buffers from the
first one ever queued; the ring positions are those counts modulo the ring size, and the hardware may take a step
wherever the driver looks at its registers. The serial link is the composition of framing, block code and scrambler,
each with its own inverse. A source logs every clock as a `Beat`: the word sent, whether a frame was waiting, and the
deficit counter. `Measure` reads the gaps off that log and `Span` off the bare lanes, and `MeasureAgrees` says that
they are the same; the gap rules are about those. `Work()` bounds the clocks until everything in the queue has been
received.

What code and specification share is also said apart from both. The places and weights of bytes and bits, the tables
and the constants are written out in lemmas of their own or in the contracts: `LinkBytes`, `StoredBytes` and
`ContentByte` for FAT and files, `UsedBit` for the bitmap, `MountBytes`, the `Layout` lemmas of `Format` and
`FormatNumbers` for boot sectors and areas, `Words` for long names, `AllDone` for ELF files, the module `BlockBits` for
everything a block can hold, `LineBit` for the scrambler, `SpanOfGap` for gaps.

## Where the code does not do what it promises

- `mount_volume` adds up the sizes of the areas in 32 bits without a check. `MountedLayout` states exactly when the
  mounted layout is sound; `HugeFatsMounted` is a boot sector with signature, jump and type string that is mounted
  although its data lie over its FATs.
- `f_mkfs` accepts a FAT12 layout whose alignment leaves no cluster, and mounting refuses it. `MountAgrees` states
  exactly when, as a test on the parameters: the areas, the alignment gap and one cluster must fit the volume.
  `SmallBlocks` is the bound a caller can check first, erase blocks of at most fifteen clusters; `TinyHasNoCluster` is
  an instance that fails.
- `remove_chain` on exFAT takes the end mark 0x7FFFFFFF for the next cluster when the chain ends at cluster
  0x7FFFFFFE, and leaves the bits of its last run set: `LastRunKept` (exactly when), `LastRunKeptInstance` (an
  object). The free count is wrong from then on, exactly in that case: `ExFatRemove.RemoveChain`.
- `f_getfree` counts the reserved entries 0 and 1 on FAT16 and FAT32, and keeps the count of an interrupted scan.
  `FGetFree` states exactly when a kept count is right: the free clusters behind the place where the scan stopped must
  be as many as the reserved entries that are zero (none on FAT12). `InterruptedCount` and `ZeroReservedCount` are
  tables of mounted FAT16 volumes on which it is wrong.
- The driver's stop rule fails on a ring of two places (a capability field of 1): the stack is woken again at once,
  because half of its one usable place is none. `AxiEth.Nic.Xmit` states that a full ring stops the stack exactly when
  the ring is larger (`StopHolds`).
- The block code cannot carry a word with an ordered set in lane 0 and other control characters above: `Os0Lost`.
  `RoundTrip` states exactly which words it carries.

## Model

| member | source | states |
|---|---|---|
| Storage.Drive.Read | bootrom/bootrom.c:384-402 | a read that succeeds delivers the addressed sectors; one that fails touches nothing but its buffer |
| Storage.Drive.Write | bootrom/ff.c:1080 | a write that succeeds replaces exactly the addressed sectors; one that fails spoils at most those |
| Storage.Sub64InRange | bootrom/ff.c:1082 | the wrapped unsigned difference test `winsect - fatbase < fsize` is the range test it stands for |
| Volume.FatFs.SyncWindow | bootrom/ff.c:1072-1090 | flushing never changes the logical volume, also when it fails; with two FATs the copies agree again afterwards unless the write of the copy failed, which a reliable drive excludes |
| Volume.FatFs.FlushWindow | bootrom/ff.c:1079-1081 | writing the dirty window back leaves the logical volume as it was, also when it fails and spoils the sector |
| Volume.FatFs.ReliableCopies | bootrom/ff.c:1082-1084 | what every operation keeps: with two FATs and a drive without errors the copies agree, except for a dirty window sector |
| Volume.FatFs.constructor | bootrom/ff.c:3298 | with the window invalidated, as mounting starts, the logical volume is what the drive holds, and its FAT copies agree exactly when those on the drive do |
| Volume.FatFs.ReflectToCopy | bootrom/ff.c:1082-1084 | a flushed sector of the first FAT is repeated at the same place of the second one, other sectors are not |
| Volume.FatFs.MoveWindow | bootrom/ff.c:1094-1115 | moving the window never changes the logical volume; on success the window shows the sector's bytes of it |
| Volume.FatFs.Put | bootrom/ff.c:1273-1280 | bytes stored into the window are stored at their place in the logical volume |
| Volume.FlushKeepsImage | bootrom/ff.c:1080-1081 | writing the dirty window back is invisible to the file system |
| Volume.FlushKeepsCopies | bootrom/ff.c:1082-1084 | reflecting the flushed sector re-establishes that the FAT copies differ at most in the dirty window sector |
| Volume.PutImage | bootrom/ff.c:1273-1280 | a store into the window is a store into the logical volume, also before the sector is written |
| Volume.MaxClustersIs | bootrom/ff.c:40-43 | how many clusters the types hold at most |
| FatTable.StoreFat12 | bootrom/ff.c:1269-1281 | storing a 12-bit entry changes that entry only, although its bytes are shared with both neighbours and may straddle a sector |
| FatTable.StoreFat16 | bootrom/ff.c:1283-1288 | storing a 16-bit entry changes that entry only |
| FatTable.Store28 | bootrom/ff.c:1290-1301 | storing a FAT32 entry changes its 28 bits only; the top four bits of the word survive |
| FatTable.StoredLinks | bootrom/ff.c:1256-1305 | put then get returns the stored link, every other entry is unchanged, nothing outside the first FAT changes (section 4.1 of the Microsoft FAT specification) |
| FatTable.LoadFat | bootrom/ff.c:1189-1213 | reading an entry through the window gives the table's value, for all entry sizes: one and a half, two or four little-endian bytes at their place behind the FAT's start, without the top four bits on FAT32 and the top bit on exFAT |
| FatTable.LinkBytes | bootrom/ff.c:1189-1213 | what an entry's bytes on the volume mean, with weights and places written out, for all four types |
| FatTable.PutFat | bootrom/ff.c:1256-1305 | the entry's bytes are stored in the logical volume, little-endian at the places get_fat reads them from; a cluster number out of range is refused and changes nothing; the FAT copies stay in agreement, unconditionally on a drive without errors |
| FatTable.StoredBytes | bootrom/ff.c:648-662 | which bytes of the volume a stored entry has, with the neighbour's half byte and the top bits of a FAT32 word kept; every other byte is unchanged |
| FatTable.PutFat12 | bootrom/ff.c:1269-1281 | the two half-byte merges through the window amount to one store of the 12-bit entry |
| FatTable.SameLinks | bootrom/ff.c:1189-1213 | the table depends on the bytes of the first FAT only |
| FatTable.EntryFits | bootrom/ff.c:3529-3547 | every byte get_fat touches for an entry of a mounted volume lies in the first FAT |
| Chains.ChainDistinct | bootrom/ff.c:1446-1503 | a chain that ends never visits a cluster twice |
| Chains.ChainAppend | bootrom/ff.c:1617-1620 | marking a free cluster as the end and linking the old end to it makes one longer chain |
| Chains.ChainCut | bootrom/ff.c:1464-1468 | an end mark inside a chain makes two chains of it |
| Chains.NewKeepsPartition | bootrom/ff.c:1541-1632 | a new one-cluster chain keeps the FAT a set of disjoint chains covering all clusters in use |
| Chains.AppendKeepsPartition | bootrom/ff.c:1541-1632 | stretching one chain by a free cluster keeps the FAT such a set and the other chains as they were |
| Chains.RemoveAllKeepsPartition | bootrom/ff.c:1446-1503 | freeing a whole chain keeps the FAT such a set |
| Chains.RemoveTailKeepsPartition | bootrom/ff.c:1446-1503 | freeing the tail of a chain keeps the FAT such a set |
| Chains.FreeBelowUpdate | bootrom/ff.c:1480-1483 | one changed entry changes the number of free clusters by exactly what it held and holds |
| Allocator.GetFat | bootrom/ff.c:1179-1213 | the table's entry, 1 for a number out of range, or the disk error value |
| Allocator.EocIs | bootrom/ff.c:1617 | the mark that ends a chain when 0xFFFFFFFF is stored: 0xFFF, 0xFFFF, 0x0FFFFFFF or 0x7FFFFFFF |
| Allocator.FindFree | bootrom/ff.c:1603-1616 | the circular search returns the first free cluster behind its start, 0 only when every cluster is in use, 1 when an entry of value 1 stops it |
| Allocator.ChooseCluster | bootrom/ff.c:1590-1616 | the neighbour of the cluster to stretch is taken when it is free, else the first free one behind the suggested cluster |
| Allocator.CreateChain | bootrom/ff.c:1541-1632 | appends exactly one formerly free cluster, the one the allocation policy chooses, or starts a chain with it; returns the existing next cluster unchanged; 0 exactly when nothing is free; the free count stays right |
| Allocator.LinkedTable | bootrom/ff.c:1617-1620 | the two stores of an allocation change exactly the new and the old last entry |
| Allocator.LinkedCount | bootrom/ff.c:1623-1626 | an allocation takes one from the number of free entries |
| Allocator.RemoveChain | bootrom/ff.c:1446-1503 | terminates on any table contents; on a chain it frees exactly its clusters and marks the previous cluster as the end; the free count stays right |
| Allocator.FreeAll | bootrom/ff.c:1470-1503 | each turn of the loop frees a used cluster, so it ends even on cyclic tables, and frees exactly the chain |
| FileData.ClusterBounds | bootrom/ff.c:1162-1170 | a cluster's sectors lie in the data area, off the FATs and the root directory, inside the volume |
| FileData.ClusterOrder | bootrom/ff.c:1162-1170 | distinct clusters have disjoint sectors |
| FileData.DataSplice | bootrom/ff.c:4046-4087 | bytes stored into one cluster of a chain are stored at the cluster's offset of the file's data |
| FileData.DataByte | bootrom/ff.c:1162-1170 | byte r of the q-th cluster of a chain is at sector database + csize * (cluster - 2) of the volume, r bytes on |
| FileRead.SectorInCluster | bootrom/ff.c:3909 | the masked sector number is the sector of the file pointer inside its cluster |
| FileRead.DirectRead | bootrom/ff.c:3930-3949 | copying the dirty window over a direct multi-sector read gives the logical volume's bytes |
| FileRead.LocateRead | bootrom/ff.c:3908-3929 | at a sector boundary the cluster and sector of the file pointer are found, following the chain only when needed |
| FileRead.ReadStep | bootrom/ff.c:3906-3971 | each turn copies the file's next bytes, on the direct and on the window path |
| FileRead.FRead | bootrom/ff.c:3883-3974 | returns exactly the bytes at the file pointer, as many as asked for and as there are; volume and file unchanged; cluster and sector stay right for the new position; it fails only for an earlier error, without read access, or for the drive |
| FileRead.ContentByte | bootrom/ff.c:3883-3974 | where on the volume each byte of a file is, in 512-byte sectors, from its chain |
| FileWrite.OtherFile | bootrom/ff.c:3984-4097 | a file on a disjoint chain keeps its chain and all its bytes over a write |
| FileWrite.NextWrite | bootrom/ff.c:4013-4033 | following or stretching the chain while writing appends one free cluster at most and keeps the written data; it gives up only behind the last cluster, with nothing free |
| FileWrite.WriteSectors | bootrom/ff.c:4046-4067 | a direct multi-sector write stores the buffer in the logical volume and keeps the window consistent with it |
| FileWrite.ClaimWindow | bootrom/ff.c:4068-4072 | taking over the window without reading, for a sector beyond the end of the file, loses nothing of the volume |
| FileWrite.WriteStep | bootrom/ff.c:4009-4092 | each turn splices its bytes into the file at the file pointer, on every path; it stores nothing only at the end of the last cluster, with nothing free |
| FileWrite.FWrite | bootrom/ff.c:3984-4097 | after reporting bw bytes the file is its old bytes with exactly that prefix of the buffer spliced in at the old position; fewer than asked for only at the end of the last cluster with none free, or at 4 GiB; nothing outside the chain changed; the free count stays right; it fails only for an earlier error, without write access, for the drive, or for an entry of value 1 in the FAT |
| FileWrite.GrewNoOnes | bootrom/ff.c:1617-1620 | growing a chain never stores the value 1 at which allocation gives up |
| FileSeek.ClusterStart | bootrom/ff.c:4492 | the masked offset is the file offset of the current cluster |
| FileSeek.FromCurrentMeans | bootrom/ff.c:4490-4492 | the seek starts from the current cluster exactly when the target is not before it |
| FileSeek.SeekLoop | bootrom/ff.c:4508-4528 | the cluster following loop ends in the target's cluster, or at the end of the last cluster when the volume is full |
| FileSeek.FLseek | bootrom/ff.c:4402-4556 | read-only: the position is min(offset, size) and nothing changes; writing: the file grows to the offset keeping its bytes, and stops short only at the end of its last cluster with none free, so an offset inside the file is always reached; cluster and sector are right afterwards; the file is marked as modified exactly when it grew; a read-only seek fails only for an earlier error or the drive |
| FileSeek.SeekTargetIs | bootrom/ff.c:4480-4485 | the offset sought: the smaller one of offset and size when reading, of offset and 4 GiB - 1 when writing |
| FileSeek.FTruncate | bootrom/ff.c:4874-4915 | the file is cut at the file pointer and exactly the clusters behind it become free, and the file is marked as modified exactly when there was something to cut; it fails only for an earlier error, without write access, or for the drive |
| FileSeek.TruncatedData | bootrom/ff.c:4874-4915 | cutting the chain keeps the data of the clusters that remain |
| ReadSession.Perform | bootrom/ff.c:3883-3974 | one seek or read does to the file what it does to a cursor on a byte sequence |
| ReadSession.PerformAll | bootrom/ff.c:4402-4556 | any sequence of seeks and reads on a read-only file returns what a cursor on a byte sequence returns |
| FileSystem.StepConsistent | bootrom/ff.c:1446-1632 | a write, seek or truncation, as the four calls of OpenFiles are proved to take it, keeps the FAT a set of disjoint acyclic chains, one for every file |
| FileSystem.StepOthers | bootrom/ff.c:3984-4097 | and keeps chain and bytes of every other file, open or not |
| FileSystem.RunConsistent | bootrom/ff.c:1446-1632 | in every state of every run the FAT is such a set |
| FileSystem.RunOthers | bootrom/ff.c:3984-4097 | a file that no operation of a run works on keeps all its bytes through the run |
| OpenFiles.WriteFile | bootrom/ff.c:3984-4097 | f_write on one of several open files takes a consistent step: its cursor and bytes change as on a byte sequence, every other file stays open with its bytes and position, the free count stays right; fewer bytes only at the end of the file on a full volume |
| OpenFiles.SeekFile | bootrom/ff.c:4402-4556 | the same of f_lseek; short of the offset only at the end of the file on a full volume |
| OpenFiles.ReadFile | bootrom/ff.c:3883-3974 | the same of f_read, which returns the bytes at the position and leaves the table alone |
| OpenFiles.TruncateFile | bootrom/ff.c:4874-4915 | the same of f_truncate |
| OpenFiles.RunCalls | bootrom/ff.c:3883-4915 | any run of calls on any number of open files refines independent cursors on byte sequences, overwrites and seeks inside a file being complete also on a full volume; the FAT stays a set of disjoint acyclic chains over all clusters in use, its copies in agreement and the free count right; on a reliable drive without an entry of value 1 every permitted call succeeds |
| GetFree.FGetFree | bootrom/ff.c:4784-4865 | a known count is returned; otherwise what was counted up to the entry where the scan ended is returned and kept, also after an error; a kept count is the number of free clusters exactly when the free clusters behind that entry are as many as the zero reserved entries counted (none on FAT12) |
| GetFree.ScanEntries | bootrom/ff.c:4838-4855 | the scan through the window counts every zero entry once, up to the entry where a disk error stops it or to the end |
| GetFree.CountedRight | bootrom/ff.c:4806-4860 | a count taken up to any entry is right exactly when free clusters not reached and reserved entries counted are equally many |
| GetFree.InterruptedCount | bootrom/ff.c:4843-4859 | on every empty FAT16 volume, of any size that mounting types so, a scan that a disk error stops at its first sector keeps the count 0 |
| GetFree.ZeroReservedCount | bootrom/ff.c:4839-4859 | on every full FAT16 volume whose entry 0 is zero a whole scan counts a free cluster |
| GetFree.FGetFreeBits | bootrom/ff.c:4803-4836 | the exFAT branch: the clear bits of the bitmap are counted; a kept count is right exactly when no bit is clear behind the place where the scan ended |
| Bitmap.FindBitmap | bootrom/ff.c:1321-1354 | the clusters from the returned one on, counted around the volume, are the first free run on the way once around from the start; 0 only when there is none |
| Bitmap.NoRunOfOne | bootrom/ff.c:1321-1354 | for a single cluster, nothing is found exactly when every cluster is in use |
| Bitmap.ScanTurn | bootrom/ff.c:1335-1353 | each step of the scan extends or restarts the run and misses none |
| Bitmap.FlippedBit | bootrom/ff.c:1382 | flipping a bit changes that cluster's state, no other's, and no FAT entry |
| Bitmap.UsedBit | bootrom/ff.c:1336-1343 | cluster c of an exFAT volume is told by bit (c - 2) % 8 of byte (c - 2) / 8 of the bitmap, the least significant bit being number 0 |
| Bitmap.ChangeBitmap | bootrom/ff.c:1361-1390 | the bits of the range change in order, all of them unless one already has the value, which stops it |
| Bitmap.ScanBitmap | bootrom/ff.c:4822-4835 | the scan counts every clear bit of the bitmap once, up to the byte where a disk error stops it or to the last cluster |
| Bitmap.CountByte | bootrom/ff.c:4830-4833 | the shifting loop counts the clear bits of a byte that belong to clusters |
| ExFat.GrowSpells | bootrom/ff.c:1564-1588 | adding a cluster, whatever the status, keeps fields and FAT together spelling the chain, and changes no link outside it |
| ExFat.GrowAllSpells | bootrom/ff.c:1564-1588 | the same for any run of allocations |
| ExFat.FirstFilled | bootrom/ff.c:1397-1413 | filling in the first fragment keeps the chain |
| ExFat.LastFilled | bootrom/ff.c:1420-1435 | filling in the growing edge keeps the chain |
| ExFat.FilledIsChain | bootrom/ff.c:1397-1435 | after both, the stored links spell exactly the chain, or it is contiguous |
| ExFat.LazyLinksSpell | bootrom/ff.c:1397-1435 | after any run of allocations and both fillings, the links spell exactly the allocated clusters in order and no other link has changed |
| ExFat.ExLinkFollows | bootrom/ff.c:1215-1236 | get_fat tells the next cluster or the end exactly in a contiguous object, inside the first fragment, at the last cluster, or when nothing is missing at the growing edge |
| ExFat.GetFat | bootrom/ff.c:1215-1236 | the answer from the object's fields or the FAT, as specified, or a disk error |
| ExFat.FillFirstFrag | bootrom/ff.c:1397-1413 | the links of the first fragment count up; status 3 becomes 0 |
| ExFat.FillLastFrag | bootrom/ff.c:1420-1435 | the links of the growing edge count up and end in the given value |
| ExFat.FillBoth | bootrom/ff.c:4129-4131 | closing an object leaves its chain on the FAT, or contiguous without one |
| ExFat.CreateChain | bootrom/ff.c:1541-1632 | marks exactly one formerly free cluster and leaves object and FAT spelling the longer chain; 0 exactly when nothing is free; a free count that agreed with the bitmap still does |
| ExFiles.AppendStep | bootrom/ff.c:4009-4033 | a turn of f_write at the end of an exFAT file takes one clear cluster at a cluster boundary and none elsewhere, for a first cluster, too; with the size kept up to date the object goes on spelling its chain, and no other link or bit changes |
| ExFiles.Append | bootrom/ff.c:3984-4097 | the same of a whole f_write; fewer bytes only at the end of the last cluster on a full volume |
| ExFiles.Sync | bootrom/ff.c:4126-4132 | f_sync leaves the chain on the FAT, or contiguous, and the object spelling it |
| ExFiles.RunCalls | bootrom/ff.c:3984-4132 | any run of such writes and syncs on any number of files keeps every object spelling its own chain, disjoint from the others; the chains grow by clusters that were clear, no other bit and no link outside the chains changes, sizes grow by what was written; all of it unless the volume is full at the end |
| ExFiles.RunAndSync | bootrom/ff.c:3984-4132 | after the run and a sync of every file the FAT, or contiguity, spells for each file exactly the clusters allocated to it, in order; on a reliable drive it succeeds |
| ExFatRemove.RemoveChain | bootrom/ff.c:1446-1532 | clears exactly the bits of the removed clusters, except for the end-mark collision, and leaves object and FAT spelling the rest with its status settled; a right free count stays right exactly when there was no collision |
| ExFatRemove.ReleaseRuns | bootrom/ff.c:1470-1503 | the bits are cleared run by run; the last run is missed exactly when the end mark equals the last cluster plus one |
| ExFatRemove.GotContiguous | bootrom/ff.c:1511-1522 | the chain is called contiguous exactly when its clusters count up by one |
| ExFatRemove.CutSpells | bootrom/ff.c:1505-1529 | with the settled status the object spells the clusters that remain |
| ExFatRemove.LastRunKept | bootrom/ff.c:1484-1501 | the collision happens exactly for a chain that ends at cluster 0x7FFFFFFE |
| ExFatRemove.LastRunKeptInstance | bootrom/ff.c:1484-1501 | an object of one cluster on the largest volume for which it happens |
| ExFatRemove.ReleasedCount | bootrom/ff.c:1480-1490 | releasing clusters in use adds exactly their number to the clear bits |
| Clmt.CreateLinkMap | bootrom/ff.c:4427-4452 | the table holds its own length, then the length and the first cluster of each fragment, then 0, which needs 2 plus twice the number of fragments; too small a table is reported with that number and never written beyond its end |
| Clmt.FragmentsAre | bootrom/ff.c:4436-4441 | fragments are counted where a cluster does not follow the one before it by number |
| Clmt.NextFragment | bootrom/ff.c:4436-4441 | a pair describes a maximal run of clusters that count up by one |
| Clmt.ClmtClust | bootrom/ff.c:1644-1662 | looking offset ofs up gives the cluster at position ofs / 512 / csize of the chain, and 0 behind its end |
| Clmt.FastSeek | bootrom/ff.c:4453-4474 | the fast seek leaves position, cluster and sector as the normal seek does, without reading the FAT |
| Lfn.PutLfn | bootrom/ff.c:1975-2000 | the entry holds its 13 units of the name, terminator and fillers behind it, as little-endian words from bytes 1, 14 and 28 on; attribute 0x0F, the checksum, and the order with 0x40 added in the last part |
| Lfn.PickLfn | bootrom/ff.c:1937-1966 | accepts an entry exactly when it is well formed and fits the buffer, and then stores its words up to the first zero at the thirteen places its order byte tells |
| Lfn.UnitIs | bootrom/ff.c:509 | the offset table leads to five words from byte 1 on, six from byte 14 on and two from byte 28 on, low byte first |
| Lfn.HoldsBytes | bootrom/ff.c:1975-2000 | all bytes of an entry made for a part of a name |
| Lfn.CmpLfn | bootrom/ff.c:1901-1929 | accepts an entry exactly when its units agree with the name up to folding and a full last part ends the name |
| Lfn.HoldsAgrees | bootrom/ff.c:1901-1929 | every entry made for a name is accepted, under any folding function |
| Lfn.DirRead | bootrom/ff.c:2364-2432 | a long name is reported only for a complete descending sequence with the right checksum, and a stored name is found with the whole name in the buffer |
| Lfn.ShortIs | bootrom/ff.c:2398-2416 | which entries are passed over and which ones end the search, by first byte and attribute |
| Lfn.ComputeSum | bootrom/ff.c:2070-2081 | the loop over the eleven bytes of a short name computes its checksum |
| Lfn.SumStep | bootrom/ff.c:2077-2079 | each byte rotates the sum right by one bit in eight and is added |
| Lfn.StoreName | bootrom/ff.c:2583-2597 | the entries of a name from the highest order down to 1, one for every thirteen units begun |
| Lfn.NameIs | bootrom/ff.c:499-501 | names have 1 to 255 units, none of them 0 or 0xFFFF |
| Lfn.RoundTrip | bootrom/ff.c:2400-2417 | a name of 1 to 255 units stored by put_lfn is rebuilt exactly, with its terminator |
| Pattern.PatternMatching | bootrom/ff.c:2812-2849 | terminates, and matches exactly when the name matches the pattern declaratively behind the given wildcard block |
| Pattern.Branch | bootrom/ff.c:2830-2846 | one branch decides the match from its position; stopping when the name is used up loses no match |
| Pattern.Block | bootrom/ff.c:2832-2837 | a block of wildcards means: skip as many characters as it has question marks, any number more if it has a star |
| Pattern.TooShort | bootrom/ff.c:2845-2846 | plain characters need as many characters of the name |
| Mount.MountedFacts | bootrom/ff.c:3498-3547 | what a mounted boot sector guarantees: types, sizes, and a FAT large enough for its entries |
| Mount.MountedLayout | bootrom/ff.c:3498-3547 | FATs, root directory and data of a mounted volume do not overlap exactly when their sum did not wrap |
| Mount.MountedRoot | bootrom/ff.c:3534-3543 | the root directory of FAT12/16 lies between the FATs and the data |
| Mount.MountBytes | bootrom/ff.c:3498-3547 | mounting from the bytes of the boot sector: when it succeeds, exactly, and every field of the volume then, among them the root directory of FAT32 |
| Mount.VbrBytes | bootrom/ff.c:3288-3308 | which boot sectors check_fs takes for a FAT volume, byte by byte |
| Mount.HugeFatsMounted | bootrom/ff.c:3498-3547 | a boot sector that passes the checks of check_fs and is mounted although the sum wrapped |
| Format.Configure | bootrom/ff.c:6130-6203 | the retry loop of f_mkfs terminates with what its passes settle on, and a completed layout is that of an accepting pass and consistent |
| Format.SelectAu | bootrom/ff.c:6135-6151 | the table loop finds the automatic cluster size, which doubles with every boundary passed |
| Format.AutoAuIs | bootrom/ff.c:5839-5840 | which cluster size that is for which volume size, on FAT12/16 and on FAT32 |
| Format.PassAccepts | bootrom/ff.c:6131-6203 | a pass completes exactly when the parameters leave room for sixteen clusters before and for the areas after alignment and the clusters there are as many as the type stands for |
| Format.LayoutGood | bootrom/ff.c:6131-6203 | the layout of an accepting pass fits the volume, is aligned, and has a FAT large enough for its clusters |
| Format.ExplicitSize | bootrom/ff.c:6131-6203 | with a given cluster size, exactly which parameters f_mkfs completes for |
| FormatNumbers.AutomaticFat16 | bootrom/ff.c:6144-6199 | what formatting with the automatic cluster size comes to: the pass itself, or the given size twice as large while there would be more than 65525 clusters or no more than 4085, or FAT32 |
| FormatNumbers.AutomaticFat32 | bootrom/ff.c:6133-6183 | the same for FAT32: the pass itself, or half the size while there would be no more than 65525 clusters |
| FormatNumbers.RetryOfFat16 | bootrom/ff.c:6186-6199 | exactly when a pass for FAT16 is retried, and with what |
| FormatNumbers.RetryOfFat32 | bootrom/ff.c:6179-6184 | exactly when a pass for FAT32 is retried, completed or given up |
| FormatNumbers.LayoutIs | bootrom/ff.c:6140-6178 | the sizes of reserved area, FATs and root directory in sectors, and how the alignment changes them |
| FormatNumbers.FatSectors | bootrom/ff.c:6140-6157 | how many sectors a FAT gets |
| Format.WriteVbr | bootrom/ff.c:6209-6243 | the boot sector has the layout's fields, those of the type, serial number and labels included |
| Format.CommonLayout | bootrom/ff.c:6211-6216 | bytes 0 to 18 of it |
| Format.SizeLayout | bootrom/ff.c:6217-6221 | where the number of sectors is, by its size |
| Format.Int13Layout | bootrom/ff.c:6222-6225 | media type, geometry and hidden sectors |
| Format.TypeLayout | bootrom/ff.c:6226-6242 | the fields of FAT32 and those of FAT12/16, byte by byte |
| Format.MountAgrees | bootrom/ff.c:3498-3547 | mounting the written boot sector finds the same type, clusters, FAT, data start and root directory, exactly when areas, alignment gap and one cluster fit the volume |
| Format.SmallBlocks | bootrom/ff.c:6155-6175 | with erase blocks of at most fifteen clusters, or on FAT16 and FAT32, they always do |
| Format.MakeFat | bootrom/ff.c:6130-6243 | the whole: formatting completes exactly when the passes settle on a layout, and what it wrote is mounted as that volume exactly when one cluster fits behind the aligned areas |
| Format.TinyHasNoCluster | bootrom/ff.c:6155-6202 | valid parameters for which f_mkfs completes and mounting refuses what it wrote |
| Elf.LoadChunk | bootrom/bootrom.c:494-513 | a chunk, or what the read returns of it, goes to its place or to the alternate window |
| Elf.LoadSegment | bootrom/bootrom.c:489-530 | a segment's bytes and zeros are loaded, whatever counts the reads return; nothing else is touched, also when loading fails |
| Elf.ReadNum | bootrom/bootrom.c:409-425 | a little-endian number of the file, or a sticky error |
| Elf.CopyBack | bootrom/bootrom.c:553-568 | the eight-byte copy loop ends and moves exactly the alternate window |
| Elf.Download | bootrom/bootrom.c:433-576 | for disjoint segments off the alternate window, memory ends up with every segment's file bytes followed by zeros, also after an earlier failed attempt; memory outside the segments is unchanged, except that the boot ROM's window takes over the alternate one on success; a failed attempt leaves that window untouched; from a sound file loading succeeds exactly when the file has all headers and segment bytes. In numbers: after success memory holds, for every program header whose first four bytes are 1, 0, 0, 0, the bytes of the file that its words at 8, 16, 32 and 40 (4, 8, 16 and 20 on 32 bits) ask for, the headers being where the words at 32, 54 and 56 (28, 42 and 44) of the file say, and the entry address is the word at 24 |
| Elf.LoadAll | bootrom/bootrom.c:472-531 | after each program header all segments met so far are in memory, at their place or stand-in, also when an earlier attempt has left the alternate window in use; nothing outside them is touched, nor the boot ROM's window; the same in numbers as for Elf.Download, with the stand-ins |
| Elf.HeaderIs | bootrom/bootrom.c:462-471 | where the file's header has entry address, offset, size and number of the program headers |
| Elf.PhdrIs | bootrom/bootrom.c:481-488 | where a program header has offset, address and sizes |
| Elf.TypeIs | bootrom/bootrom.c:431-483 | which headers are loaded, by their first four bytes |
| Barrier.StepInv | generators/riscv-boom/util/csmith/sources/util.h:44-62 | every atomic step of any thread keeps the protocol invariant |
| Barrier.StepAccess | generators/riscv-boom/util/csmith/sources/util.h:44-62 | which shared variable each atomic step touches, and what becomes of the thread |
| Barrier.Safety | generators/riscv-boom/util/csmith/sources/util.h:44-62 | over all interleavings no thread returns from its m-th barrier before all have entered theirs, episodes differ by one at most, count never exceeds N |
| Barrier.SomeoneCanMove | generators/riscv-boom/util/csmith/sources/util.h:53-59 | with all threads inside, one of them can do more than spin |
| Barrier.SomeoneLeaves | generators/riscv-boom/util/csmith/sources/util.h:53-59 | and after at most 3N moves one is outside again |
| Ring.NextPos | patches/fpga-axi-eth.c:334 | masking with ring_mask is arithmetic modulo the ring size |
| Ring.FreePlaces | patches/fpga-axi-eth.c:133 | tx_ring_free, with its unsigned wrap-around, is the number of free places |
| Ring.PacketRing.Indices | patches/fpga-axi-eth.c:334-341 | the index tests for full, empty and completed mean what they say; out, hardware out and inp stay in cyclic order |
| Ring.PacketRing.Occupied | patches/fpga-axi-eth.c:95-99 | a slot holds a buffer exactly when its index lies in [out, inp), going around |
| Ring.PacketRing.Queue | patches/fpga-axi-eth.c:334-350 | a buffer is queued behind the others, into a slot that was empty |
| Ring.PacketRing.HardwareStep | patches/fpga-axi-eth.c:487-499 | the hardware completes queued buffers in order, reports on each in its own register, and never passes inp |
| Ring.PacketRing.Report | patches/fpga-axi-eth.c:262 | the status register at out is the report on the buffer to be taken out next |
| Ring.PacketRing.Retire | patches/fpga-axi-eth.c:487-499 | the oldest buffer is taken out, in queue order |
| Ring.PacketRing.DisposeAll | patches/fpga-axi-eth.c:454-464 | every buffer in the ring is thrown away once, and the hardware is set behind them |
| Ring.PacketRing.Conserved | patches/fpga-axi-eth.c:95-99 | every buffer ever queued was retired or is in the ring, exactly once and in order |
| AxiEth.Nic.Xmit | patches/fpga-axi-eth.c:298-362 | a mapped packet is queued, an unmapped one is not; a buffer is retired only when the ring was full, which the stop rule excludes; a packet that fills the ring stops the stack exactly when the ring has more than two places |
| AxiEth.Nic.WakeQueue | patches/fpga-axi-eth.c:355-357 | the stack is woken exactly when half the ring is free, so it is stopped whenever the ring is full |
| AxiEth.StopHolds | patches/fpga-axi-eth.c:355-357 | the threshold of the wake rule is zero exactly for a ring of two places |
| AxiEth.Nic.AddRxBuffers | patches/fpga-axi-eth.c:401-441 | exactly as many new buffers are queued, in order, as there are free places, or as could be allocated when that is fewer |
| AxiEth.Nic.RxDone | patches/fpga-axi-eth.c:259-283 | the oldest packet is dropped exactly when bit 0 (bad frame) or bit 1 (bus error) of its own status word is set, and handed on otherwise |
| AxiEth.StatusBits | patches/fpga-axi-eth.c:92-93 | the masks single out bits 0 and 1 of a status word |
| AxiEth.Nic.Isr | patches/fpga-axi-eth.c:476-510 | every completed buffer is retired once and in order, none is left behind, received packets are dropped or handed on by the two error bits of their status words, and the receive ring is left full if memory lasts |
| AxiEth.Nic.ChangeMtu | patches/fpga-axi-eth.c:443-474 | when the mtu grows every receive buffer is thrown away once and the ring refilled; otherwise the ring is untouched |
| AxiEth.Nic.DevClose | patches/fpga-axi-eth.c:583-623 | no buffer is left with driver or hardware |
| AxiEth.Session | patches/fpga-axi-eth.c:298-510 | any interleaving of transmit, interrupt, mtu change and hardware keeps the rings and the stop rule; exactly the mapped packets are queued and none is dropped; every receive buffer retired over the run is attributed to the event that retired it, and was dropped or handed on by the two error bits of its status word, or thrown away by a change of the mtu |
| Scrambler.ScrambleWord | ethernet/verilog-ethernet/tb/baser_serdes_ep.py:338-348 | the scrambler loop computes the scrambled sequence and carries the last 58 line bits |
| Scrambler.DescrambleWord | ethernet/verilog-ethernet/tb/baser_serdes_ep.py:424-431 | the descrambler loop likewise |
| Scrambler.LineBit | ethernet/verilog-ethernet/tb/baser_serdes_ep.py:338-348 | every line bit is the exclusive or of its data bit and the line bits 39 and 58 places back |
| Scrambler.DataBit | ethernet/verilog-ethernet/tb/baser_serdes_ep.py:424-431 | every descrambled bit is the exclusive or of the same line bits |
| Scrambler.Inverse | ethernet/verilog-ethernet/tb/baser_serdes_ep.py:338-431 | from equal states descrambling inverts scrambling, for every bit sequence (clause 49.2.6 of IEEE 802.3) |
| Scrambler.SelfSync | ethernet/verilog-ethernet/tb/baser_serdes_ep.py:424-431 | from arbitrary states every bit from position 58 on is right |
| Scrambler.Forgotten | ethernet/verilog-ethernet/tb/baser_serdes_ep.py:424-431 | after 58 line bits the state no longer depends on the one before |
| Scrambler.ErrorSpread | ethernet/verilog-ethernet/tb/baser_serdes_ep.py:424-431 | a wrong line bit makes exactly three wrong bits |
| BlockCode.RoundTrip | ethernet/verilog-ethernet/tb/baser_serdes_ep.py:186-637 | decoding gives back a word exactly when it is one of the forms the code carries (clause 49.2.4 of IEEE 802.3) |
| BlockCode.Os0Lost | ethernet/verilog-ethernet/tb/baser_serdes_ep.py:260-276 | what becomes of a word with an ordered set in lane 0 only |
| BlockCode.TermBack | ethernet/verilog-ethernet/tb/baser_serdes_ep.py:285-320 | a terminate in any lane comes back exactly when coded control characters follow it |
| BlockCode.TermLane | ethernet/verilog-ethernet/tb/baser_serdes_ep.py:78-96 | the lane a block type names, none for the others |
| BlockBits.Header | ethernet/verilog-ethernet/tb/baser_serdes_ep.py:232-238 | the sync header is 2 for a word without control characters and 1 for every other word |
| BlockBits.CodeIs | ethernet/verilog-ethernet/tb/baser_serdes_ep.py:188-228 | the seven-bit code of every lane |
| BlockBits.CharIs | ethernet/verilog-ethernet/tb/baser_serdes_ep.py:437-469 | the character of every seven-bit code |
| BlockBits.DataBits | ethernet/verilog-ethernet/tb/baser_serdes_ep.py:230-235 | the bits of a block of eight data bytes |
| BlockBits.Start0Bits | ethernet/verilog-ethernet/tb/baser_serdes_ep.py:239-243 | the bits of a block with a start in lane 0, type 0x78 |
| BlockBits.Start4Bits | ethernet/verilog-ethernet/tb/baser_serdes_ep.py:244-258 | with a start in lane 4, type 0x33 |
| BlockBits.OsStartBits | ethernet/verilog-ethernet/tb/baser_serdes_ep.py:244-258 | with an ordered set and a start, type 0x66 |
| BlockBits.Os04Bits | ethernet/verilog-ethernet/tb/baser_serdes_ep.py:260-276 | with two ordered sets, type 0x55 |
| BlockBits.Os0Bits | ethernet/verilog-ethernet/tb/baser_serdes_ep.py:260-276 | with an ordered set in lane 0 only, type 0x4b, where error codes take the place of the upper lanes |
| BlockBits.Os4Bits | ethernet/verilog-ethernet/tb/baser_serdes_ep.py:277-284 | with an ordered set in lane 4, type 0x2d |
| BlockBits.TermBits | ethernet/verilog-ethernet/tb/baser_serdes_ep.py:285-320 | with a terminate in each lane, eight types |
| BlockBits.ControlBits | ethernet/verilog-ethernet/tb/baser_serdes_ep.py:321-323 | and of all other words, type 0x1e |
| BlockBits.HeaderDecoded | ethernet/verilog-ethernet/tb/baser_serdes_ep.py:473-637 | a block with header 2 is decoded as eight data bytes, one with a header other than 1 and 2 as eight errors |
| BlockBits.FrontCodesDecoded | ethernet/verilog-ethernet/tb/baser_serdes_ep.py:477-503 | what blocks of types 0x1e, 0x2d and 0x33 are decoded as, whatever their bits |
| BlockBits.FrontSetDecoded | ethernet/verilog-ethernet/tb/baser_serdes_ep.py:504-563 | and those of types 0x78, 0x66, 0x55 and 0x4b |
| BlockBits.TermDecoded | ethernet/verilog-ethernet/tb/baser_serdes_ep.py:564-629 | and those of the eight terminate types |
| BlockBits.OtherDecoded | ethernet/verilog-ethernet/tb/baser_serdes_ep.py:630-633 | a block of any other type is decoded as eight errors |
| Xgmii.Sink.Accept | ethernet/verilog-ethernet/tb/baser_serdes_ep.py:639-675 | the receiver's reaction to a word: start, data, or the end of a frame at the first control character |
| Xgmii.ReceiveIs | ethernet/verilog-ethernet/tb/baser_serdes_ep.py:639-675 | the same, character by character |
| Xgmii.SentLanes | ethernet/verilog-ethernet/tb/baser_serdes_ep.py:155-178 | the lanes of a frame: start, bytes and terminate, behind four idles when it starts in lane 4 |
| Xgmii.FirstWord | ethernet/verilog-ethernet/tb/baser_serdes_ep.py:639-655 | the first word of a frame, in lane 0 or 4, starts its reception |
| Xgmii.FurtherWord | ethernet/verilog-ethernet/tb/baser_serdes_ep.py:656-675 | every further word brings its bytes, the last one the whole frame |
| Pacing.BeginOk | ethernet/verilog-ethernet/tb/xgmii_ep.py:211-217 | the first word of a frame closes a gap on the wire that has twelve lanes plus the old minus the new deficit, exactly if a frame was waiting all along, and leaves a deficit below four |
| Pacing.GapsBound | ethernet/verilog-ethernet/tb/xgmii_ep.py:177-238 | read off the lanes of any run: every gap has at least 9 lanes (12 without deficit idle count), n gaps have at least 12n - 3, and a gap through which a frame was waiting has exactly 12 plus the old minus the new deficit (clause 46.3.1.4 of IEEE 802.3) |
| Pacing.BusyTotal | ethernet/verilog-ethernet/tb/xgmii_ep.py:177-238 | with a frame always waiting n gaps have exactly 12n lanes less the last deficit, which is at most three |
| Pacing.MeasureAgrees | ethernet/verilog-ethernet/tb/xgmii_ep.py:177-238 | the gaps measured clock by clock have the lengths found on the bare lanes between terminate and next start character |
| Pacing.SpanOfGap | ethernet/verilog-ethernet/tb/xgmii_ep.py:177-238 | the length of a gap is the distance of its terminate and start characters on the wire |
| Pacing.NoSpan | ethernet/verilog-ethernet/tb/xgmii_ep.py:177-238 | nothing else on the wire counts as a gap |
| XgmiiLink.Source.Tick | ethernet/verilog-ethernet/tb/xgmii_ep.py:177-238 | one clock sends and logs one word: the next of the current frame, the first of the next one, or idles; the gap rules hold of the words logged, for four and eight lanes; the remaining work shrinks |
| XgmiiLink.Source.PopWord | ethernet/verilog-ethernet/tb/xgmii_ep.py:182-197 | the next lanes filled up with idles; after the last one the gap counter is twelve plus the deficit less the lanes from the terminate character on |
| XgmiiLink.ClockInStep | ethernet/verilog-ethernet/tb/xgmii_ep.py:177-238 | source and receiver stay in step over every clock |
| XgmiiLink.RunLink | ethernet/verilog-ethernet/tb/xgmii_ep.py:177-238 | the frames sent are received, unchanged and in order, except the one still on its way; after as many clocks as the source has work, all queued frames have been received |
| XgmiiLink.Transfer | ethernet/verilog-ethernet/tb/xgmii_ep.py:132-238 | frames handed to a source and clocked for as long as it has work are received, all of them, unchanged and in order |
| BaseR.Source.EncodeFrame | ethernet/verilog-ethernet/tb/baser_serdes_ep.py:180-325 | the padded frame is encoded word by word |
| BaseR.Source.Tick | ethernet/verilog-ethernet/tb/baser_serdes_ep.py:142-348 | one clock sends a block the code can carry, scrambled, under header 2 exactly when it holds no control character, and 1 otherwise, and logs its lanes, of which the gap rules hold; the remaining work shrinks |
| BaseR.Deserializer.Accept | ethernet/verilog-ethernet/tb/baser_serdes_ep.py:415-675 | descrambler, decoder and receiver in one step |
| BaseR.LinkClock | ethernet/verilog-ethernet/tb/baser_serdes_ep.py:142-675 | one clock of the link, from any scrambler states: they are equal afterwards, and if they were equal before the sink receives the word sent |
| BaseR.JoinSerialLink | ethernet/verilog-ethernet/tb/baser_serdes_ep.py:142-675 | a sink with any descrambler state, joining a running link at any time, gets in step; at most the frame on its way and the next one are lost, and at most two frames of garbage are queued |
| BaseR.RunSerialLink | ethernet/verilog-ethernet/tb/baser_serdes_ep.py:142-675 | over the serial link the frames sent are received, unchanged and in order, except the one still on its way; after as many clocks as the source has work, all of them |

## Left out

- Directories beyond long names, `f_open`, `f_sync`, FSINFO contents, `f_expand`, timestamps, mount identifiers and
  `validate`: bookkeeping around the parts modelled here.
- Mounting of exFAT volumes.
- FileRead.FRead: not for files on exFAT volumes, where allocation and links are modelled but no data, and without its
  fast-seek branch; the look-up in a link map is proved equal to following the chain (Clmt.ClmtClust).
- FileWrite.FWrite: not for files on exFAT volumes and without its fast-seek branch; the result of an operation
  interrupted by a disk error is not described, except that the window stays consistent and the FAT copies as
  promised.
- FileSeek.FLseek: not for files on exFAT volumes; the fast-seek branch is modelled on its own (Clmt.FastSeek). The
  bytes a file gains by seeking behind its end in write mode are whatever the clusters hold; the contract does not
  name them.
- FileSeek.FTruncate: not for files on exFAT volumes; there only the removal of the clusters is modelled
  (ExFatRemove.RemoveChain).
- ExFiles.Append: the bytes written; the file pointer is at the end of the file, so overwriting and seeking are not
  shown.
- OpenFiles.RunCalls: files opened, created or closed during the run; a run ends at its first error.
- Volume.FatFs.SyncWindow: a failed write to the second FAT is ignored by the code; it is recorded (`copyLost`) and
  the agreement of the copies is then no longer promised.
- Bitmap.FindBitmap: the two inner loops of the code, over the bits of a byte and the bytes of a sector, are one loop;
  so in Bitmap.ChangeBitmap.
- ExFatRemove.RemoveChain: requires that no link is missing at the growing edge, as after a seek or an open, which
  fill them in.
- Lfn.DirRead: entries are handed over one by one instead of read through the window, and the mode that looks for the
  volume label is not shown.
- Lfn.StoreName: entries are byte sequences handed over one by one; their way through the window and the allocation of
  directory entries are not shown.
- Pattern.PatternMatching: characters are single units; double-byte code pages and UTF decoding are not shown, and the
  folding function is a parameter that maps only the terminator to 0.
- Format.MakeFat: partitioning, the sectors behind the boot sector and exFAT formatting are not shown.
- AxiEth.Nic.Xmit: the wait for the hardware ends because the hardware is taken to go on; its liveness is not proved.
  Rings of one place (a capability field of 0) are excluded.
- AxiEth.Nic.DevClose: the waits end because the hardware is taken to go on with what is queued, also after
  transmission was disabled; what a real device does then is not part of this model.
- AxiEth.Nic.ChangeMtu: whether the new buffers fit the new mtu.
- BlockCode.Encode: fields that the code combines by bit operations are concatenated, since they never overlap; of the
  68 bits of an OS_0 block the low 64 are kept.
- XgmiiLink.Source.Tick: `force_offset_start`, reset, frames with error marks and frames that end in their first word.
- BaseR.Source.Tick: the same, and bit reversal.
- Elf.Download: the jump to the entry address it returns, and the bit widths of `uint64_t` and `size_t`: addresses and
  sizes are below the size of memory.
- The SD card protocol, UART, MDIO, clocks and interrupts of the hardware: transfers that may fail, and steps of an
  environment.
