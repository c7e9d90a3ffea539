# usbsas: proofs about the transfer of files from a USB device

usbsas copies files from a device that is not trusted to a file system it builds itself, through a chain of small
processes. This project models the parts of it in which state, allocation and arithmetic come together, and proves
what they promise:

- **FatFs** (`ff.c`, FAT12/16/32 and exFAT). The sector window and the FAT codec, the cluster allocators with their
  chains and bitmaps, the exFAT chains whose links are written late, the open file with its sector buffer, long names
  and exFAT entry sets, formatting and mounting.
- **The sparse image**. Which sectors of the image were touched, how that bit vector reaches the writer, and what is
  then on the device.
- **The orchestrator**. Expanding the selection, what each child may be told and when, the tar archive that goes from
  one child to another.
- **Two fast forms of simple things**. Setting a run of bits in the NTFS bitmap, and unaligned reads of a partition
  through a cache.

## How the model is made

State that the source updates in place is a class with those fields: `Volumes.Volume` is `FATFS`,
`ExfatAllocator.ObjectId` is `FFOBJID`, `FileBuffer.File` is `FIL`, `SparseCopy.SparseFile`, `SparseCopy.OnesIter`,
`TarLeg.Archiver`, `CachedReader.Reader` and `Orchestrator.Usbsas` are the structures of those names or roles. Each
loop of the source is a loop of a method, or a method of its own when the source nests loops.

Each class has a meaning as a plain value, and its methods are stated against it. A volume means `view`, the disk
overlaid with the dirty window, and in it `tab`, the FAT as a sequence of entries, and `bits`, the allocation bitmap. An
open file means `Content`, a sequence of bytes. An archive means `entries`. A run of the orchestrator means its `trace`,
and in it `acts`, the requests that carry something. The source device has `source`, what its files hold; an answer as
long as was asked for is that part of the file, a shorter or longer one is anything.

Disk and device operations succeed or fail at will; a failed write leaves anything in the sectors it was for. Byte and
bit operations of the source are written as division and remainder; where the source cuts to 16 or 32 bits and that
can matter, so does the model. An invariant that is costly for the verifier is wrapped in a quantifier over a trivial
predicate (`Open`, `OpenTables`, `OpenFile` and others), so that it is looked into only where `assert Open();` asks for
it.

## Main results

1. *exFAT chains* (`ExfatLazy.RunThenSync`, `ExfatAllocator.CreateChain`). After any run of stretches, seeks and
   synchronisations, with `stat` 0, 2 or 3 and any pending fragments, the chain on the volume is the clusters that were
   allocated, in order.
2. *The file layer is a byte sequence* (`FileRuns.Run`, from `FileLayer.Write`, `FileLayer.Read` and `FileSeek.Seek`).
   Any successful run of writes, reads and in-range seeks, on FAT and exFAT volumes alike, answers as a plain sequence
   of bytes does, and changes no data that is not the file's. `FileSeek.CleanOnVolume` and `FileSeek.Open` say that
   these are the bytes on the volume, and `FileRuns.RunThenReopen` that a file opened again after a sync has them. With
   several files open (`OpenFiles.RunAmong`) any interleaving of such operations leaves each file as its own operations
   make it, and all of them in order; `OpenFiles.OpenEach` opens all files that result 3 leaves on a FAT volume.
3. *FAT allocation over whole runs* (`FatRuns.Run`, from a blank drive on in `FatReady.FormatThenRun`). Whatever is
   created, stretched and removed, the files are what the operations leave of them, their chains intact and disjoint, no
   cluster is lost, and the free count is the number of free clusters from the format on.
4. *Removal* (`FatAllocator.RemoveChain`) ends on every FAT, cyclic ones included, and frees exactly the chain; on exFAT
   (`ExfatAllocator.RemoveChain`) it frees exactly the chain if and only if the end mark is not the number after the
   last cluster, and `ExfatAllocator.EndIsNext` says when it is. With that one exception `ExfatRuns.RunEx` states for
   exFAT what result 3 does for FAT, with links that are written late.
5. *Window and codec* (`Volumes.Volume.PutFat`, `FatCodec.TablePut`). Every edit through the window is the update of one
   entry of the FAT.
6. *Format, mount, use* (`FatFormat.FormatThenMount`, `FatFormat.MakePlan`, `FatReady.FormatToUse`). A layout is found
   exactly for volumes of at least 66079 sectors, in a partition that reaches to the end of the drive; mounting finds it
   again, with only the root directory in use, and the result is a volume in order, on which all of the above holds.
7. *Sparse copy* (`SparseCopy.Transfer`). The device equals the image on touched sectors and is unchanged elsewhere.
8. *NTFS bitmap* (`NtfsBitmap.SetBitsInRun`), *cached reads* (`CachedReader.Reader.ReadAt`), *expansion*
   (`Expansion.Expand`).
9. *From the source to files2fs* (`Orchestrator.CopyToDevice`, from `Orchestrator.Usbsas.TarThenServe`,
   `TarLeg.SourceServed`, `TarLeg.ServedEntry` and `Orchestrator.Usbsas.RunWrite`). When a transfer is done, files2fs
   got every directory and every clean file, whole or reported as an error, and the copy to the device was started after
   all of it. If every file came in full, the bytes are those of the source. The index of the archive is where the
   entries are if and only if each but the last takes the blocks it announces (`TarArchive.IndexIff`).
10. *Unlocking and copy safety over every run* (`Orchestrator.Session`, `Orchestrator.EveryRun`,
    `Orchestrator.ArchivedPassed`).
11. *Names* (`LongNames.RegisterThenRead`, `LongNames.DirFind`, `ExfatEntries.RegisterThenSearch`), and the checksums
    they rest on (`Sums.RotRightBits`, `Sums.SumOfDiffers`, `ExfatEntries.XSumDiffers`, `ExfatEntries.NameSumDiffers`).

## Where the code does less than one would expect

- `remove_chain` on exFAT coalesces runs by comparing the next cluster with the last one plus one; an end value that is
  exactly that number reads as one more cluster, and the last block stays in use. The contract of
  `ExfatAllocator.RemoveChain` states both sides, `ExfatAllocator.EndIsNext` which chains are meant, and
  `ExfatAllocator.EndIsNextChain` is one of them.
- `endfile` pads by what was written and does not ask whether that is what the header announced, but the walk over the
  archive steps by what was announced. The walk finds the entries if and only if each but the last takes the blocks it
  announces (`TarArchive.IndexIff`); a file short by less is served with zeros (`TarLeg.ReadAllBack`). `TarLeg.LostFile`
  is an archive in which a complete file is not found, because the one before it is short by a block.
- A USB destination with an unknown file system type is noticed after files2tar was unlocked and before that is
  recorded, so `end_all` unlocks it again. `Orchestrator.Session` states that without such a request every child is
  unlocked once, `Orchestrator.UnlockedTwice` that with one files2tar is unlocked twice.
- `mount_volume` computes sector numbers in 32 bits. The geometry it accepts is sound and in its place if and only if
  none needs more (`FatMount.MountedGeometry`); `FatMount.CutMounts` is a boot sector for which that is not so, and
  `FatMount.MountsCut` mounts it.
- A relative seek of the cached reader takes its signed offset as unsigned. A step back therefore fails, unless it would
  go below zero, when the position becomes an enormous one (`CachedReader.Reader.SeekCurrent`).
- The sender of the bit vector has no chunk for an empty vector and panics (`BitVector.Forward`, `SparseCopy.Transfer`).
- The hash of an exFAT name does not tell all names apart that differ in one unit. They have the same hash if and only
  if low byte plus twice the high byte is the same for both, give or take a carry (`ExfatEntries.NameSumDiffers`), so
  never if the two units share a byte (`ExfatEntries.NameSumApart`); `ExfatEntries.NameSumKnown` is a pair of names
  that do. The checksum of a set tells any two sets apart that differ in one byte (`ExfatEntries.XSumDiffers`).
- `move_window` to the mark for no sector succeeds without loading anything; the contract of
  `Volumes.Volume.MoveWindow` leaves that case out of what it says about the window.

## Model

| member | source | states |
|---|---|---|
| FatCodec.GetPutSame | ff/src/ff/ff.c:1129-1256 | an entry read after it was put is the value cut to 12, 16, 28 or 31 bits, and FAT32 keeps the top four bits |
| FatCodec.GetPutOther | ff/src/ff/ff.c:1207-1256 | no other entry changes, even where two FAT12 entries share a byte; nor do the top bits of other FAT32 entries |
| FatCodec.TablePut | ff/src/ff/ff.c:1207-1256 | on the whole FAT, put_fat is the update of one element of the table of entries |
| FatCodec.TableAt | ff/src/ff/ff.c:1129-1198 | the table lists what get_fat cuts out of the bytes |
| FatCodec.KnownEntries | ff/src/ff/ff.c:1129-1198 | the byte order, on known bytes: entries of each width, least significant byte first, and the first four entries of a FAT12 |
| Bits.PutTest | ff/src/ff/ff.c:1331-1336 | putting a bit of a byte changes that bit and no other |
| Bits.BitsPut | ff/src/ff/ff.c:1324-1336 | putting a bit of a byte puts one bit of the whole bitmap |
| Volumes.Volume.constructor | ff/src/ff/ff.c:3241-3242 | any drive that fits a geometry becomes a volume in order, with nothing in the window and what is on the drive for its view, its FAT and its bitmap |
| Volumes.Volume.SyncWindow | ff/src/ff/ff.c:1023-1041 | the dirty window reaches the disk, and the second FAT if it is a FAT sector; the view does not change |
| Volumes.Volume.CopyToMirror | ff/src/ff/ff.c:1033-1035 | a flushed sector of the first FAT equals that of the second, unless the unchecked write of the copy failed; exactly then the sector counts as stale, and no other sector of the second FAT changes |
| Volumes.Volume.MoveWindow | ff/src/ff/ff.c:1045-1066 | on success the window holds the sector asked for as the view has it; the view never changes |
| Volumes.Volume.ReadEntry | ff/src/ff/ff.c:1129-1198 | get_fat through the window gives the entry of the table, FAT12 entries that straddle sectors included, or the error value |
| Volumes.Volume.PutFat | ff/src/ff/ff.c:1207-1256 | on success exactly one entry of the table changes, to the cut value, and no sector outside the FAT; a bad cluster number is refused |
| Volumes.Volume.PutFat12 | ff/src/ff/ff.c:1219-1232 | the two bytes of a FAT12 entry, possibly in two sectors, are those the codec puts |
| Volumes.Volume.PutFat16 | ff/src/ff/ff.c:1234-1240 | the FAT bytes after the call are those the codec puts |
| Volumes.Volume.PutFat32 | ff/src/ff/ff.c:1242-1252 | the FAT bytes after the call are those the codec puts, for FAT32 and exFAT |
| Volumes.Volume.PokeBit | ff/src/ff/ff.c:1331-1334 | editing a bit in the window is the update of one bit of the bitmap and of nothing else |
| Volumes.SplicedTables | ff/src/ff/ff.c:3999-4013 | writing file sectors past the window leaves the FAT and the bitmap as they are |
| Chains.ChainUnique | ff/src/ff/ff.c:1397-1454 | a cluster starts one chain only |
| Chains.ChainDistinct | ff/src/ff/ff.c:1397-1454 | a terminated chain never meets itself |
| Chains.StretchedChain | ff/src/ff/ff.c:1568-1571 | the requested chain grows by exactly the new cluster, at its end |
| Chains.StretchedOther | ff/src/ff/ff.c:1568-1571 | every other chain stays as it is |
| Chains.StretchedFree | ff/src/ff/ff.c:1492-1583 | exactly the new cluster leaves the free ones |
| Chains.RemoveFromChain | ff/src/ff/ff.c:1422-1454 | removal from the start of a chain frees exactly its clusters |
| Chains.RemoveFromOnlyFrees | ff/src/ff/ff.c:1422-1454 | on any table whatever, removal changes an entry only to free |
| Chains.ClearedWellFormed | ff/src/ff/ff.c:1397-1454 | removing a whole chain keeps the table well formed |
| Chains.ClearedFree | ff/src/ff/ff.c:1397-1454 | exactly the clusters of the chain join the free ones, and none of them was free |
| FatAllocator.GetFat | ff/src/ff/ff.c:1129-1198 | the table's entry, 1 for a number that is no cluster, or the disk error value |
| FatAllocator.ScanFree | ff/src/ff/ff.c:1554-1567 | the search once around gives a free cluster, and gives none only if there is none |
| FatAllocator.ChooseFree | ff/src/ff/ff.c:1502-1567 | the cluster after the tail or any other one, free; none only if no cluster is free |
| FatAllocator.CreateChain | ff/src/ff/ff.c:1492-1583 | a cluster that was free becomes the tail of exactly the requested chain; 0 exactly when none is free; a chain that goes on is followed; insane entries give 1; nothing else changes; the free count stays right, stays known if it was and unknown if it was not, and the cluster is remembered as the last one |
| FatAllocator.RemoveChain | ff/src/ff/ff.c:1397-1454 | ends on every FAT with the table that following and freeing from the start gives, the previous cluster ending its chain first; the free count stays right, and stays known or unknown as it was |
| FatRuns.NewAccounts | ff/src/ff/ff.c:1492-1583 | a new chain keeps the files' chains disjoint and all used clusters accounted for |
| FatRuns.AppendAccounts | ff/src/ff/ff.c:1492-1583 | so does a cluster added to a file |
| FatRuns.DeleteAccounts | ff/src/ff/ff.c:1397-1454 | so does the removal of a file |
| FatRuns.AccountsWellFormed | ff/src/ff/ff.c:1397-1583 | a table whose used clusters are the files' chains is one of disjoint, acyclic, terminated chains |
| FatRuns.WellFormedAccounts | ff/src/ff/ff.c:1397-1583 | and every such table is one of files: the runs below can start from any well-formed FAT |
| FatRuns.Conserved | ff/src/ff/ff.c:1397-1583 | the clusters of the files and the free ones together are all clusters |
| FatRuns.Stretch | ff/src/ff/ff.c:1492-1583 | one more cluster for a file, or the first of a new one; it reports a full volume only when no cluster is free |
| FatRuns.Perform | ff/src/ff/ff.c:1397-1583 | one operation has exactly its effect on the files and keeps the accounts |
| FatRuns.Run | ff/src/ff/ff.c:1397-1583 | over any run up to a disk error: the files are those there were, changed by each operation in turn, and an operation is skipped only when it does not apply or the volume is full; chains intact and disjoint, the FAT well formed, no cluster lost; a free count that was known and right is known and right at the end: with the files it makes up all clusters |
| FatRuns.RootAccounts | ff/src/ff/ff.c:6226-6252 | a new volume is accounted for by its root directory |
| ExfatBitmap.FindBitmap | ff/src/ff/ff.c:1272-1305 | a cluster whose bit is clear; 0 only if no bit is clear |
| ExfatBitmap.ScanSector | ff/src/ff/ff.c:1282-1303 | the bits passed so far, once around, are all set |
| ExfatBitmap.ChangeBitmap | ff/src/ff/ff.c:1312-1341 | on success all bits of the range had the other value and exactly those are flipped; an internal error means one had not |
| ExfatBitmap.SetRangeAt | ff/src/ff/ff.c:1312-1341 | which bits a range is |
| ExfatLazy.LinkRunAt | ff/src/ff/ff.c:1348-1364 | which entries fill_first_frag writes, and with what |
| ExfatLazy.LinkTailAt | ff/src/ff/ff.c:1371-1386 | which entries fill_last_frag writes, and with what |
| ExfatLazy.FillFirstRepresents | ff/src/ff/ff.c:1348-1364 | writing the first fragment keeps the chain that fields and FAT stand for |
| ExfatLazy.FillLastRepresents | ff/src/ff/ff.c:1371-1386 | writing the last fragment keeps it too |
| ExfatLazy.FillFirstKeeps | ff/src/ff/ff.c:1348-1364 | writing the first fragment changes no entry of a cluster outside the chain |
| ExfatLazy.FillLastKeeps | ff/src/ff/ff.c:1371-1386 | nor does writing the last one, whatever it is linked to |
| ExfatLazy.GrowContiguous | ff/src/ff/ff.c:1522-1530 | a contiguous chain that stays so needs nothing written |
| ExfatLazy.GrowFragments | ff/src/ff/ff.c:1525-1536 | the first fragment of a chain that stops being contiguous is remembered and not written |
| ExfatLazy.GrowTail | ff/src/ff/ff.c:1530-1532 | a last fragment that gets longer is only counted |
| ExfatLazy.GrowNewFragment | ff/src/ff/ff.c:1533-1537 | a new fragment: the last one is written and linked to it |
| ExfatLazy.GrowRepresents | ff/src/ff/ff.c:1516-1538 | create_chain extends the represented chain by the allocated cluster, in every state |
| ExfatLazy.GrowKeeps | ff/src/ff/ff.c:1516-1538 | nor does create_chain, in any state of the object |
| ExfatLazy.RunRepresents | ff/src/ff/ff.c:1348-1386 | after any run of stretches, seeks and synchronisations the fields and the FAT stand for the allocated clusters, in order |
| ExfatLazy.RunThenSync | ff/src/ff/ff.c:1348-1386 | and after a final synchronisation they are a plain FAT chain, or consecutive clusters of an object marked contiguous |
| ExfatAllocator.GetFat | ff/src/ff/ff.c:1165-1189 | the value by the object's state, size and 32-bit offsets, or 1, or the disk error value |
| ExfatAllocator.NextOnChain | ff/src/ff/ff.c:1165-1189 | on a represented chain get_fat follows the chain to its end |
| ExfatAllocator.FillFirstFrag | ff/src/ff/ff.c:1348-1364 | the loop does what the value-level step says, and touches only the FAT |
| ExfatAllocator.FillLastFrag | ff/src/ff/ff.c:1371-1386 | the loop does what the value-level step says, and touches only the FAT |
| ExfatAllocator.CreateChain | ff/src/ff/ff.c:1492-1583 | one clear bit is set and its cluster is the new tail of the represented chain, and no entry of another chain changes; 0 only when no bit is clear; a chain that goes on is followed; file data is untouched; the free count stays right and known, or unknown |
| ExfatAllocator.FreedAt | ff/src/ff/ff.c:1422-1454 | freeing clears exactly one bit per cluster of the chain |
| ExfatAllocator.FreedRun | ff/src/ff/ff.c:1436-1443 | clearing the bits of a coalesced run frees the clusters of the run one by one |
| ExfatAllocator.FreeStep | ff/src/ff/ff.c:1422-1454 | one round: the chain is followed and the current block freed when it ends |
| ExfatAllocator.RemoveChain | ff/src/ff/ff.c:1397-1483 | exactly the bits of the chain are cleared and the free count is right, if the end value is not the last cluster plus one; if it is, the last cluster stays in use |
| ExfatAllocator.EndIsNext | ff/src/ff/ff.c:1436-1443 | the end of a chain reads as the number after its last cluster if and only if that is the last cluster of the volume and its entry is the number of entries, or, marked contiguous, the volume has as many entries as the end mark says |
| ExfatAllocator.EndIsNextChain | ff/src/ff/ff.c:1436-1443 | a chain of which that is so |
| ExfatRuns.NewBits | ff/src/ff/ff.c:1492-1583 | a new object keeps it so that the set bits are exactly the clusters of the objects, none of them shared |
| ExfatRuns.AppendBits | ff/src/ff/ff.c:1492-1583 | so does a cluster added to an object |
| ExfatRuns.DeleteBits | ff/src/ff/ff.c:1397-1483 | so does the removal of an object |
| ExfatRuns.ConservedBits | ff/src/ff/ff.c:1397-1583 | the clusters of the objects and the clear bits together are all clusters |
| ExfatRuns.OtherStands | ff/src/ff/ff.c:1516-1538 | an object stands for its chain while another one changes its own entries of the FAT |
| ExfatRuns.StretchObject | ff/src/ff/ff.c:1492-1583 | one more cluster for an object, or its first one, with its size up to date; a full volume is reported only when no bit is clear |
| ExfatRuns.SettleObject | ff/src/ff/ff.c:1348-1386 | all links of the object are on the FAT, and it stands for the same chain |
| ExfatRuns.RemoveObject | ff/src/ff/ff.c:1397-1483 | exactly the bits of the object are cleared, unless its end reads as the number after its last cluster, which is then the last of the volume |
| ExfatRuns.PerformEx | ff/src/ff/ff.c:1348-1583 | one operation has exactly its effect on the objects' chains and keeps everything in order |
| ExfatRuns.RunEx | ff/src/ff/ff.c:1348-1583 | over any run of creations, stretches, synchronisations and removals, up to a disk error or that one exception: each object stands for the chain the operations leave it, the set bits are exactly the objects' clusters, and none is lost; a free count that was known and right is so at the end |
| FileMap.AddrsAt | ff/src/ff/ff.c:1112-1120 | where sector r of cluster k of a chain is |
| FileMap.AddrsDistinct | ff/src/ff/ff.c:1112-1120 | a chain without repetition uses no sector twice |
| FileMap.FlatPatch | ff/src/ff/ff.c:4044-4052 | bytes put into one sector are bytes put into the file |
| FileMap.WriteAtTwice | ff/src/ff/ff.c:3972-4053 | two adjacent writes are one |
| FileBuffer.File.Flush | ff/src/ff/ff.c:4000-4003 | the dirty buffer reaches its sector, and the file's sectors are the same |
| FileBuffer.File.Load | ff/src/ff/ff.c:3914-3924 | the buffer shows the sector asked for |
| FileBuffer.File.Patch | ff/src/ff/ff.c:4044-4052 | exactly these bytes of the buffered sector change |
| FileBuffer.File.DirectWrite | ff/src/ff/ff.c:4009-4024 | whole sectors past the buffer, which is refilled if its sector is among them |
| FileBuffer.File.DirectRead | ff/src/ff/ff.c:3893-3908 | whole sectors past the buffer, with the dirty one put in its place |
| FileChain.Follow | ff/src/ff/ff.c:3873-3888 | get_fat on the file's chain gives the next cluster, or the end |
| FileChain.Stretch | ff/src/ff/ff.c:3975-3995 | create_chain on the file's chain, FAT or exFAT: the next cluster, or a new one at the end, or none only on a full volume |
| FileChain.LastIs | ff/src/ff/ff.c:1166-1172 | the size of a file gives the index of its last cluster |
| FileChain.SettleTail | ff/src/ff/ff.c:1371-1386 | the last fragment gets its links and the file's chain stays |
| FileChain.SettleHead | ff/src/ff/ff.c:1348-1364 | the first fragment gets its links and the file's chain stays |
| FileLayer.WriteStep | ff/src/ff/ff.c:3972-4053 | one round writes a first part of the data, as to a plain sequence; nothing only on a full volume |
| FileLayer.Clipped | ff/src/ff/ff.c:3967-3970 | on FAT the test for wrap-around cuts a write at 4 GiB less one byte, and cuts no other |
| FileLayer.Write | ff/src/ff/ff.c:3946-4059 | the file's bytes are those of the plain sequence after the same write, of all the data unless the volume is full or a FAT file is at its limit; a failed or read-only file is refused |
| FileLayer.ReadStep | ff/src/ff/ff.c:3870-3934 | one round reads the next bytes of the plain sequence |
| FileLayer.Read | ff/src/ff/ff.c:3847-3939 | the bytes asked for, up to the end of the file, as the plain sequence has them; no byte of the file changes |
| FileSeek.Walk | ff/src/ff/ff.c:4470-4491 | following the chain reaches the cluster of the target, or the last one of a full volume |
| FileSeek.Finish | ff/src/ff/ff.c:4492-4515 | the pointer is at the target and its sector is buffered |
| FileSeek.ClusterIndex | ff/src/ff/ff.c:4452-4456 | dividing by the cluster size gives the index of the cluster |
| FileSeek.Seek | ff/src/ff/ff.c:4364-4519 | the pointer is at the offset asked for unless a write-mode seek past the end found the volume full; the bytes there were are unchanged, and none is added by a seek inside the file |
| FileSeek.Sync | ff/src/ff/ff.c:4068-4138 | the buffer is on the disk and every link of an exFAT chain is on the FAT; the bytes are the same, and the file no longer counts as modified |
| FileSeek.SettledIsChain | ff/src/ff/ff.c:4090-4094 | then an exFAT chain is a FAT chain, or consecutive if so marked |
| FileSeek.CleanOnVolume | ff/src/ff/ff.c:4068-4138 | with a clean buffer the file's bytes are those in the clusters of its chain |
| FileSeek.Open | ff/src/ff/ff.c:3778-3805 | an opened file has the bytes that are on the volume, and its pointer at the top |
| FileSeek.Reopen | ff/src/ff/ff.c:3778-3805 | a synced file opened again, from its start cluster, size and state, has the same bytes and the same chain |
| FileRuns.Perform | ff/src/ff/ff.c:3847-4059 | an operation that succeeds in full does to the file what it does to a plain sequence, and answers the same |
| FileRuns.Run | ff/src/ff/ff.c:3847-4059 | so does every run of them, and apart from the FAT and the bitmap only the file's own sectors change |
| FileRuns.RunThenReopen | ff/src/ff/ff.c:3847-4138 | after any run with a write, and a sync, an object with the same fields opened again has the bytes that the run leaves of a plain sequence |
| FileRuns.OthersKept | ff/src/ff/ff.c:3847-4059 | since the volume was marked, no data sector but those of the file's chain has changed, no entry of the FAT or the bitmap but those of its clusters, and the clusters it got were free |
| FileRuns.NeighbourKept | ff/src/ff/ff.c:3847-4059 | the sectors and the buffer of another open file with other sectors are in order on the volume as it is then |
| OpenFiles.StillDisjoint | ff/src/ff/ff.c:1492-1583 | files without a common cluster have none after one of them got more |
| OpenFiles.NeighbourChain | ff/src/ff/ff.c:1492-1583 | and the chain of the other is still what its fields and the tables stand for, FAT or exFAT, with links on the FAT or not yet |
| OpenFiles.NeighbourInOrder | ff/src/ff/ff.c:3847-4059 | so the other open file is in order on the volume as it is then |
| OpenFiles.OpenAmong | ff/src/ff/ff.c:3778-3805 | one more opened file, with clusters of its own, joins the open files, with the bytes that are on the volume |
| OpenFiles.OpenEach | ff/src/ff/ff.c:3778-3805 | all files of a FAT volume whose accounts are in order can be open together, each with the bytes that are in its chain |
| OpenFiles.PerformAmong | ff/src/ff/ff.c:3847-4519 | an operation on one of several open files does what it does to a plain sequence, all files stay in order, and no other is seen to change |
| OpenFiles.RunAmong | ff/src/ff/ff.c:3847-4519 | over any run of operations on any of the open files, each file runs through its own operations, with their answers, as if the others were not there |
| FatMount.FindVolume | ff/src/ff/ff.c:3276-3321 | sector 0 if it is a volume, else the first partition that is one; that there is none is reported only if there is none |
| FatMount.MountFat | ff/src/ff/ff.c:3456-3530 | a boot sector is accepted if and only if it passes every test, with the geometry it describes cut to 32 bits; on FAT32 the root cluster is taken over, on FAT12 and FAT16 the start and size of the root directory; the counts are those of a valid FSInfo sector, or unknown without one |
| FatMount.RootInPlace | ff/src/ff/ff.c:3490-3503 | the root directory of FAT12 and FAT16 takes the sectors between the FATs and the data, if no sector number is cut |
| FatMount.MountedGeometry | ff/src/ff/ff.c:3456-3507 | the geometry is sound, with the FAT and the data where the boot sector puts them, if and only if no sector number up to the data area needs more than 32 bits |
| FatMount.CutMounts | ff/src/ff/ff.c:3247-3507 | a FAT32 boot sector that passes all tests at sector 0xFFFFFFF0 although the start of its FAT is cut: it is taken to be sector 16 |
| FatMount.Mount | ff/src/ff/ff.c:3330-3530 | a mounted volume is one that was found and passed; it is sound and in its place if and only if nothing was cut, and then a root directory outside the data area ends where the data begins |
| FatMount.MountsCut | ff/src/ff/ff.c:3330-3530 | a drive with this volume as its first partition is mounted, and not in place |
| FatFormat.PickUnit | ff/src/ff/ff.c:6102-6106 | the unit from the table: at least 64K clusters if it is more than one sector, fewer than 128K if it is not the largest |
| FatFormat.GoodIsSane | ff/src/ff/ff.c:6100-6150 | a layout that is accepted is aligned, has a FAT32 number of clusters and a FAT large enough for them |
| FatFormat.SmallFits | ff/src/ff/ff.c:6100-6150 | clusters of one sector do exactly from 66079 sectors on |
| FatFormat.AmpleFits | ff/src/ff/ff.c:6100-6150 | 128K clusters always do, so the retry never fails |
| FatFormat.MakePlan | ff/src/ff/ff.c:6099-6171 | a layout is found if and only if the volume has at least 66079 sectors |
| FatFormat.BuildVbr | ff/src/ff/ff.c:6177-6210 | the boot sector has every field of the plan where mount_volume looks for it: jump, sizes, FAT32 marks, backup and FSInfo sectors, volume number, names and signature |
| FatFormat.BuildInfo | ff/src/ff/ff.c:6216-6221 | the FSInfo sector has its signatures and the count of free clusters |
| FatFormat.PickHeads | ff/src/ff/ff.c:5759-5761 | the first of 8, 16, 32, 64 and 128 heads that gives at most 1024 cylinders, else 255 |
| FatFormat.ChsBack | ff/src/ff/ff.c:5776-5787 | cylinder, head and sector, read back from their packed bytes, give the sector number, up to the 1024 cylinders that ten bits can tell apart |
| FatFormat.BuildMbr | ff/src/ff/ff.c:5755-5791 | the partition table has one FAT32 partition, from sector 63 to the end of the drive, in sectors and in cylinders, heads and sectors; the other entries and the boot code are zero, and the signature is there |
| FatFormat.WriteRun | ff/src/ff/ff.c:6237-6252 | a run written through an eight-sector buffer is the first sector and blank ones, and nothing else changes |
| FatFormat.Format | ff/src/ff/ff.c:6098-6253 | on success the drive has a partition table, a boot sector, a FAT and a root directory as planned; the copies and FSInfo are there if their unchecked writes succeeded; too small a drive is refused untouched |
| FatFormat.FoundFirst | ff/src/ff/ff.c:3276-3321 | the new volume is found in the first partition |
| FatFormat.VbrClusters | ff/src/ff/ff.c:3456-3507 | mount_volume computes the planned number of clusters and accepts the volume |
| FatFormat.VbrPlaces | ff/src/ff/ff.c:3456-3507 | mount_volume computes the planned places, none of them cut |
| FatFormat.FreshTable | ff/src/ff/ff.c:6226-6252 | in the new FAT only cluster 2 is in use and ends its chain, and the free count is right |
| FatFormat.FormatThenMount | ff/src/lib.rs:224-231 | format then mount: the same type, cluster count, FAT base and data base, sound, the partition reaching exactly to the end of the drive and the data inside it, root in cluster 2, only that in use, free count accurate if the FSInfo write succeeded |
| FatReady.Attach | ff/src/lib.rs:224-231 | a mounted drive is a volume in order, with what is on the drive |
| FatReady.FormatToUse | ff/src/lib.rs:224-231 | format, mount and use: a volume in order whose one used cluster is that of the root directory, with the right free count if FSInfo was written |
| FatReady.FormatThenRun | ff/src/ff/ff.c:1397-1583 | every run of the allocator on a new volume ends with the files that its operations leave beside the root directory, with no cluster lost, a free count that is the number of free entries, and accounts in which all of them can be opened |
| LongNames.PutLfn | ff/src/ff/ff.c:1926-1951 | the entry is the part of the name it should be, with order, checksum, terminator and fillers |
| LongNames.PickLfn | ff/src/ff/ff.c:1888-1918 | a part is taken over at its place and nothing of the later parts is lost |
| LongNames.CmpLfn | ff/src/ff/ff.c:1852-1879 | a part of the same name is accepted, and an accepted part agrees |
| LongNames.AllPartsAgree | ff/src/ff/ff.c:1852-1879 | names are the same up to case exactly when all parts agree |
| Sums.RotRightBits | ff/src/ff/ff.c:2020-2030 | rotating right by one: bit k of the result is bit k + 1 of the sum, and the top bit is the lowest, for any width |
| Sums.SumOfDiffers | ff/src/ff/ff.c:2020-2030 | data that differs in one byte has another sum, for sums of 8 bits or more |
| LongNames.SumSfnDiffers | ff/src/ff/ff.c:2020-2030 | short names that differ in one byte have different checksums |
| LongNames.SumSfnKnown | ff/src/ff/ff.c:2020-2030 | the checksum of README.TXT is 0x73 |
| LongNames.Register | ff/src/ff/ff.c:2492-2506 | the entries of a name are its parts, last one first, then the short entry |
| LongNames.DirRead | ff/src/ff/ff.c:2273-2341 | the first file entry is found, and nothing before it; a registered name anywhere before other files is read back as it was; a long name is reported only above a whole chain of parts with the right orders and checksums |
| LongNames.RegisterThenRead | ff/src/ff/ff.c:2492-2506 | a name registered among labels, deleted entries and parts of other names, with anything after it, is read back as it was |
| LongNames.DirFind | ff/src/ff/ff.c:2351-2422 | anywhere in a directory: a registered name that is the same up to case ends the search at its short entry or before, so does a short name that is looked for, and the search ends at an entry only for one of the two; a long name is found only below a whole chain of parts |
| ExfatEntries.XdirSum | ff/src/ff/ff.c:2042-2059 | the sum that the members below describe, over the bytes of the whole set, with its own field skipped |
| ExfatEntries.XSumSame | ff/src/ff/ff.c:2042-2059 | the checksum does not depend on the field that holds it |
| ExfatEntries.XSumStep | ff/src/ff/ff.c:2050-2057 | one byte further the sum is rotated right by one bit, bit by bit, and the byte added in 16 bits |
| ExfatEntries.XSumDiffers | ff/src/ff/ff.c:2042-2059 | sets that differ in one byte outside that field have different sums |
| ExfatEntries.SumOfA | ff/src/ff/ff.c:2042-2059 | the sum of the 96 bytes of one set, written out, is 0x3166 |
| ExfatEntries.XnameSum | ff/src/ff/ff.c:2063-2077 | the hash that the members below describe, over the name as it is in the buffer |
| ExfatEntries.NameSumSame | ff/src/ff/ff.c:2063-2077 | names that are the same up to case have the same hash |
| ExfatEntries.NameSumDiffers | ff/src/ff/ff.c:2063-2077 | names that differ in one unit have the same hash if and only if the two units, in upper case, have the same sum of their low byte and twice their high byte, corrected by one if only one of the low bytes carries |
| ExfatEntries.NameSumApart | ff/src/ff/ff.c:2063-2077 | so they have different hashes if the two units, in upper case, have a byte in common, as two letters of one script do |
| ExfatEntries.NameSumKnown | ff/src/ff/ff.c:2063-2077 | the hash of the name A is 0x8020; two names of one unit with the same hash |
| ExfatEntries.CreateXdir | ff/src/ff/ff.c:2227-2258 | the set has as many entries as dir_register reserves, in order, and holds the name, its length and its hash |
| ExfatEntries.StoreXdir | ff/src/ff/ff.c:2195-2218 | the entries are in the directory with their checksum, and no other entry changes; it fails exactly past the end of the directory |
| ExfatEntries.LoadXdir | ff/src/ff/ff.c:2097-2141 | a set is accepted if and only if a well-formed one with its own checksum is there, and then it is in the buffer |
| ExfatEntries.StoreThenLoad | ff/src/ff/ff.c:2097-2218 | the set gets its checksum; it is stored, accepted and loaded again exactly if its entries fit the directory |
| ExfatEntries.NamesKept | ff/src/ff/ff.c:2042-2059 | what a set names does not depend on its checksum or on what is after it |
| ExfatEntries.MatchName | ff/src/ff/ff.c:2365-2381 | the comparison by hash and units on any set in order, whatever its name |
| ExfatEntries.AcceptsIff | ff/src/ff/ff.c:2365-2381 | it accepts a set exactly by the names that are the same up to case as the one it holds |
| ExfatEntries.RegisterThenFind | ff/src/ff/ff.c:2195-2381 | from building a set to finding it: it fits exactly where the reserved entries do, names its object after loading, and matches exactly the names that are the same up to case |
| ExfatEntries.NextSet | ff/src/ff/ff.c:2273-2312 | the next set, loaded and in order; the end; or the first set that is not in order |
| ExfatEntries.FindSet | ff/src/ff/ff.c:2365-2382 | in a directory with any sets in order before it, an object is found, or another match before it, if the name is the same up to case, and found only then |
| ExfatEntries.RegisterThenSearch | ff/src/ff/ff.c:2195-2382 | the same for an object just registered among others |
| BitVector.UnpackPack | usbsas-fs2dev/src/lib.rs:317-354 | packing and unpacking keeps every bit and adds clear ones up to a whole byte |
| BitVector.PackAppend | usbsas-files2fs/src/lib.rs:404-435 | chunks cut at whole bytes pack to the whole |
| BitVector.Sender.Next | usbsas-files2fs/src/lib.rs:404-435 | the next chunk of the vector, and whether it is the last |
| BitVector.Forward | usbsas-usbsas/src/main.rs:1387-1404 | the receiver has the packed vector, unless it is empty |
| SparseCopy.WrittenTracks | usbsas-files2fs/src/sparsefile.rs:37-51 | a write keeps it so that touched sectors start in the file and the rest is zero |
| SparseCopy.SparseFile.Write | usbsas-files2fs/src/sparsefile.rs:37-51 | the file has the bytes written, and exactly the sectors they touch are marked besides the old ones |
| SparseCopy.OnesIter.Next | usbsas-fs2dev/src/lib.rs:135-148 | the next run of ones, of at most 240, with nothing but zeros before it and no shorter than need be |
| SparseCopy.Copy | usbsas-fs2dev/src/lib.rs:183-232 | the device equals the padded image on marked sectors and is unchanged elsewhere, and the last report is the total; no read starts past the end of the image |
| SparseCopy.Transfer | usbsas-fs2dev/src/lib.rs:183-354 | the same for a written image, after the hand-over of its bit vector; it panics on an empty vector only |
| SparseCopy.BlankDevice | usbsas-fs2dev/src/lib.rs:183-232 | on a blank device the copy is the whole image |
| SparseCopy.Wipe | usbsas-fs2dev/src/lib.rs:236-281 | the whole device is zero and the last report is its size |
| NtfsBitmap.BitGetAndSet | ntfs3g/src/ntfs-3g/bitmap.c:90-101 | the old value, and exactly this bit has the new one |
| NtfsBitmap.BitSet | ntfs3g/src/ntfs-3g/bitmap.c:56-64 | exactly this bit has the value |
| NtfsBitmap.SetFirst | ntfs3g/src/ntfs-3g/bitmap.c:147-165 | a partial first byte: exactly its bits of the run |
| NtfsBitmap.SetLast | ntfs3g/src/ntfs-3g/bitmap.c:198-207 | a partial last byte: exactly its bits of the run |
| NtfsBitmap.WriteWindow | ntfs3g/src/ntfs-3g/bitmap.c:172-223 | all bytes up to the end of the window are as they have to be |
| NtfsBitmap.NextWindow | ntfs3g/src/ntfs-3g/bitmap.c:225-248 | the state after a window that the run goes past is the state before the next one |
| NtfsBitmap.SetBitsInRun | ntfs3g/src/ntfs-3g/bitmap.c:115-255 | on success exactly the bits of the run have the value and every other bit is as it was; the cases reported as bugs cannot happen |
| CachedReader.Scsi.ReadSectors | usbsas-scsi/src/lib.rs:278-296 | commands of at most 0x800 blocks are one large read |
| CachedReader.Reader.ReadSectors | usbsas-mass-storage/src/lib.rs:299-328 | the sectors asked for, from the cache or not, and every cache entry is what it names |
| CachedReader.Reader.Read | usbsas-mass-storage/src/lib.rs:332-350 | the bytes of the partition from the position on, which moves past them |
| CachedReader.Reader.ReadFrom | usbsas-mass-storage/src/lib.rs:332-374 | seek, then read: the bytes of the partition at the place asked for, wherever the position was |
| CachedReader.Reader.SeekCurrent | usbsas-mass-storage/src/lib.rs:354-374 | the position and the error for every signed offset, exactly |
| CachedReader.Reader.ReadAt | usbsas-mass-storage/src/lib.rs:377-396 | the bytes of the partition at any place, for any history of the cache |
| CachedReader.PartitionBytes | usbsas-mass-storage/src/lib.rs:332-350 | a part of the sectors read is that part of the partition |
| TarArchive.IndexOfStream | usbsas-tar2files/src/lib.rs:117-145 | the walk lists all entries, in order and where they are, if all but the last take the blocks they announce |
| TarArchive.DataOfStream | usbsas-files2tar/src/tarwriter.rs:66-79 | where the data of each entry of any archive is, padded to a whole block |
| TarArchive.IndexIff | usbsas-tar2files/src/lib.rs:117-145 | the walk finds the entries where they are if and only if all but the last take the blocks they announce |
| TarArchive.PlacesPoint | usbsas-tar2files/src/lib.rs:117-145 | at such a place is the data of the entry, with zeros for what is missing inside its last block |
| TarLeg.Archiver.NewFile | usbsas-files2tar/src/files2tar.rs:76-117 | a header is written only while waiting and only for a file or a directory; a refused type leaves the archive as it was |
| TarLeg.Archiver.WriteFile | usbsas-files2tar/src/files2tar.rs:127-160 | the bytes go to the output, or the archive can no longer be closed |
| TarLeg.Archiver.EndFile | usbsas-files2tar/src/tarwriter.rs:71-79 | the entry is finished with zeros up to a whole block, whatever its length |
| TarLeg.Archiver.Close | usbsas-files2tar/src/tarwriter.rs:81-118 | closes only between files, with two blocks of zeros after the information about the transfer |
| TarLeg.FoundAt | usbsas-tar2files/src/lib.rs:179-184 | the last file of each name is found, where its data is, whatever came short inside a last block |
| TarLeg.ReadBack | usbsas-tar2files/src/lib.rs:196-217 | any part of the last file of a name is read back, with zeros for bytes that never came |
| TarLeg.ReadAllBack | usbsas-tar2files/src/lib.rs:196-217 | the whole of it is read back in requests of at most 10 MiB, and one that came in full as it came, whatever the others did and however names repeat |
| TarLeg.ArchiveServes | usbsas-tar2files/src/lib.rs:117-217 | what a successfully closed archive serves |
| TarLeg.ServedEntry | usbsas-tar2files/src/lib.rs:117-217 | and whatever it serves in full is the data of an entry of that name |
| TarLeg.SourceServed | usbsas-usbsas/src/main.rs:671-776 | what was read of a file from the source is what tar2files serves under its name, with a prefix and information about the transfer or without |
| TarLeg.DataPrefix | usbsas-files2tar/src/files2tar.rs:59 | with the prefix that files2tar uses, no file has the name of the information about the transfer |
| TarLeg.LostFile | usbsas-files2tar/src/tarwriter.rs:71-79 | two files, the first short by a whole block: the complete second one is not found, and the first is served with the header of the second for its contents |
| Expansion.AddParents | usbsas-usbsas/src/main.rs:592-603 | the ancestors of an entry are listed, each after its own, and nothing else |
| Expansion.CoveredNext | usbsas-usbsas/src/main.rs:581-641 | what is reachable was seen or is reachable from the worklist |
| Expansion.TotalNext | usbsas-usbsas/src/main.rs:581-641 | the worklist gets lighter with each path, on any finite tree |
| Expansion.Expand | usbsas-usbsas/src/main.rs:581-641 | the files are exactly the readable ones at or below the selection, each once, with their sizes summed; the directories are the reachable ones and proper ancestors of what is reachable, ancestors first; errors are exactly the unreadable; it fails only at a directory that cannot be read |
| Protocol.UnlocksCounted | usbsas-usbsas/src/main.rs:504-576 | what is remembered of a trace is how often each child was unlocked in it |
| Protocol.NotEarly | usbsas-usbsas/src/main.rs:504-576 | and whether some child was sent a framed message before it was unlocked |
| Protocol.SafeTrace | usbsas-usbsas/src/main.rs:789-944 | and whether an event was not allowed by those before it |
| Protocol.BadFsIff | usbsas-usbsas/src/main.rs:503-541 | and whether a bad file system type was met |
| Orchestrator.Usbsas.Wait | usbsas-usbsas/src/main.rs:382-419 | a state that waits for the client keeps what is known, a copy starts only on request, and the messages that lead to a copy or to the end do |
| Orchestrator.Usbsas.WaitPartition | usbsas-usbsas/src/main.rs:393-404 | a copy starts exactly on a request with a destination, with an id |
| Orchestrator.Usbsas.Filter | usbsas-usbsas/src/main.rs:643-669 | the paths kept are exactly those answered PathOk, in order, and the rest is dropped; it fails exactly without one answer for each path |
| Orchestrator.Usbsas.FileToTar | usbsas-usbsas/src/main.rs:701-776 | one more entry, of the chunks in order; if no chunk came short it is exact and the chunks are the beginning of the file on the source, each read where the one before it ended; no larger than the limit; on failure the archive is as it was or cannot be closed; source and files2tar are asked in turn, and only when unlocked |
| Orchestrator.Usbsas.TarSource | usbsas-usbsas/src/main.rs:671-699 | the archive is closed exactly on success, and then holds exactly the files that are not among the errors, in order: none is half-written; if all came in full, with what the source has in them |
| Orchestrator.Usbsas.TarThenServe | usbsas-usbsas/src/main.rs:671-776 | archiving and serving in one: if every file came in full, each is served with what the source has in it, under a repeated name the last one |
| Orchestrator.Usbsas.MakeArchive | usbsas-usbsas/src/main.rs:543-560 | an archive made of paths that passed the filter has no other files, and has of them what the source has if all came in full |
| Orchestrator.Usbsas.UnlockForCopy | usbsas-usbsas/src/main.rs:503-541 | who is unlocked for which destination; files2tar is left unlocked and recorded as locked exactly for a USB destination of unknown type whose device answers and is large enough |
| Orchestrator.Usbsas.RunCopy | usbsas-usbsas/src/main.rs:466-576 | exactly the files and directories that were expanded and passed the filter go on, in order, and the archive is one of them; nothing is sent to files2fs yet; a bad file system type is met exactly if the selection expands, the filter answers and leaves something, and the device answers and is large enough |
| Orchestrator.Usbsas.Analyze | usbsas-usbsas/src/main.rs:896-944 | with an analyzer exactly the files on its clean list stay, in order; without one all do |
| Orchestrator.Usbsas.SendParts | usbsas-usbsas/src/main.rs:962-997 | the data of a file in chunks of at most 10 MiB, each at its place, is what tar2files reads back of the whole file |
| Orchestrator.Usbsas.SendFile | usbsas-usbsas/src/main.rs:946-1006 | a file is announced, written from its start to the size tar2files has for it, and ended; or there was an error, and only requests about this file |
| Orchestrator.Usbsas.SendAll | usbsas-usbsas/src/main.rs:811-859 | every directory in order, then every file in order: whole and as tar2files has it, or it is among the errors after requests about it alone |
| Orchestrator.Usbsas.ForwardBits | usbsas-usbsas/src/main.rs:1387-1404 | all chunks of the bit vector in order, only the last one marked as the last |
| Orchestrator.Usbsas.RunWrite | usbsas-usbsas/src/main.rs:789-876 | when the transfer is done, files2fs got exactly the directories and then the clean files, each whole or among the errors; then the bit vector went to fs2dev, and the copy was started last; analysis came before all of it |
| Orchestrator.CopyToDevice | usbsas-usbsas/src/main.rs:466-876 | from the selection to files2fs: when the transfer is done, every file that was reached, passed the filter and is clean was sent whole or is among the errors, and if all came in full from the source, what was sent is what the source has in a file of that name |
| Transfers.CopiedFromSource | usbsas-usbsas/src/main.rs:701-1006 | a file sent whole from an archive that was made in full has what the source has in a file of that name |
| Orchestrator.Usbsas.RunUpload | usbsas-usbsas/src/main.rs:1050-1078 | the archive is uploaded, or the command run, once; fs2dev is unlocked once, and always if the transfer is done |
| Orchestrator.Usbsas.RunWipe | usbsas-usbsas/src/main.rs:1130-1223 | fs2dev is unlocked once and first; on success it was asked to wipe unless a quick wipe will do, got the bit vector of a new file system, and was started last |
| Orchestrator.Usbsas.EndAll | usbsas-usbsas/src/main.rs:1406-1457 | children still recorded as locked are unlocked, and all are asked to end, in order |
| Orchestrator.Usbsas.MainLoop | usbsas-usbsas/src/main.rs:1641-1656 | every run keeps what is known; a second unlock can come only from a copy to a USB device without a file system type |
| Orchestrator.EndedRun | usbsas-usbsas/src/main.rs:1406-1457 | in a run that reached its end each waiting child was unlocked before its first framed message, and exactly once if and only if no bad file system type was met; the last requests are those to end |
| Orchestrator.Session | usbsas-usbsas/src/main.rs:1641-1656 | a run from any messages of the client: if none of them asks for a copy to a USB device without a file system type and the run ends, every waiting child was unlocked exactly once and before anything else |
| Orchestrator.UnlockedTwice | usbsas-usbsas/src/main.rs:466-541 | the other case, message by message from the start: an id, a device, a partition, a copy of one file to a USB device without a file system type, the end; files2tar was unlocked twice |
| Orchestrator.EveryRun | usbsas-usbsas/src/main.rs:789-1006 | at any moment of any run: every file sent, and every byte of it, was expanded, passed and, with an analyzer, found clean; no copy to the device before analysis; no copy without an id |
| Orchestrator.ArchivedPassed | usbsas-usbsas/src/main.rs:643-699 | at any moment of any run, every file in a closed archive was let through by the filter |

## Left out

- Process start, pipes, seccomp, protobuf encoding, logging, configuration: messages are values, and a run in which a
  pipe breaks is not a run of the model.
- The HTTP analyzer and uploader, the web server, FUSE, the imager and the Python client: the analyzer is any answer.
- Reads that the wrapper reports as successful although they failed (ff/src/ff_extern.rs:36-47): a read of the model
  succeeds with the data or reports an error.
- Time stamps, and opening in append mode.
- FileSeek.Sync: without the directory entry that `f_sync` writes and without `sync_fs`, because directories are not
  files of the model and the FSInfo sector is read only by mounting.
- `f_expand`, `f_truncate`, `f_rename`, labels, fast seek, file locks, TRIM, GPT: not used or not configured.
- Mounting and formatting exFAT volumes; FAT12 and FAT16 formats; sector sizes other than 512 bytes in mounting and
  formatting.
- Directories as files: the entries of a directory are given as a sequence, so growing a directory and the search for a
  free block of entries are not modelled.
- Short-name generation, code pages; upper-casing is any function of a unit.
- Imaging a whole disk: sectors are read and written in any number of requests.
- Orchestrator.CopyToDevice: for an archive without a prefix, as files2tar makes it for a USB destination; what the
  unlock message says about that is given. The errors are those of writing, because a file that could not be archived
  is one that tar2files does not have.
- The tar header format of the tar library, GNU long names, and a header write that fails midway.
- ntfs-3g beyond the bitmap: attributes are read and written as whole arrays, and are never grown by the write.
- What a failed disk operation leaves of an open file: after an error only the volume's own invariant is promised.
- OpenFiles.OpenAmong: for an object that is not open yet and has clusters of its own, because file locks are not
  configured and what a directory entry says of its chain is given.
- FileRuns.RunThenReopen: for runs with a write, because `f_sync` does nothing to a file that was not modified.
- ExfatAllocator.RemoveChain: for whole chains, with no previous cluster, because only `f_truncate` passes one.
- ExfatBitmap.FindBitmap: for one cluster at a time, as `create_chain` asks; runs of several are not modelled, because
  nothing asks for them.
- FatFormat.MakePlan: for the parameters the wrapper passes, one FAT, alignment of eight sectors, automatic cluster size.
- Volumes.Volume.MoveWindow: says nothing of the window when asked for the mark for no sector, because nothing is loaded
  then.
- FileRuns.Run: seeks past the end, which lengthen a file with whatever its new clusters hold, are in `FileSeek.Seek`
  only, because a plain sequence has no such bytes.
- Expansion.Expand: sizes are summed without the 64-bit limit.
- NtfsBitmap.SetBitsInRun: for runs whose byte offset fits the 32-bit variable the source keeps it in.
