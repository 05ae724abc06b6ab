# A verified model of the voxel machine's storage, world, console and timers

The system is a handheld voxel game on a Nios II processor. This project models the four parts of its
software that carry state from call to call, in Dafny, and proves what they promise.

* **The FAT volume** (`Bytes` to `FileRuns`, `DirCursor`). FatFs as configured here: FAT12, FAT16 and FAT32,
  512-byte sectors, one private sector buffer per file. Three layers, each a refinement of the next:
  a one-sector write-back window over a device that may fail; bit-packed FAT entries and an allocator of
  cluster chains behind that window; an open file with its cursor and its own dirty buffer. The abstract
  views are the logical disk, the table as a sequence of numbers, the chains as a forest, and the file as a
  byte string with a position. `FileRuns.Session` is the summary: any sequence of calls on a file, up to the
  first reported error, is a run of a plain byte string, what the device does not hold is told by the modified flag,
  and the whole table stays a forest of disjoint chains even through that error, unless a FAT12 entry across a sector
  boundary is left half stored. `FileRuns.Interleave` says the same for two handles whose calls interleave. A directory
  cursor is on entry k exactly where the format has it.
* **The world** (`MapSave`, `Blocks`, `Movement`, `Rays`, `WaterFlow`, `Game`). Saving and loading run over that file
  layer through their own chunk buffers; the decoder is total and the coding the shortest it accepts. Collision keeps
  the player out of solid blocks over every run of the game, and bedrock is never lost. A water sweep changes nothing
  exactly when nothing is left to flow, and then all flowing water is fed from a source or from outside the box.
* **The console** (`Rings`, `JtagUart`). Two rings shared with an interrupt handler. Thread code calls
  `Interrupts` before every access to an index, a slot or `irq_enable`; the invariant holds there, and it
  says that both directions are first in, first out and that no data is stranded with its interrupt off.
* **The timers** (`Alarms`). A wrapping 32-bit counter and one bit per alarm stand for absolute deadlines.

Conventions: a device error is a nondeterministic result, counted in the ghost field `faults`, failed writes also
in `lostWrites` and half stored FAT12 entries in `torn`; a failed write leaves arbitrary content in its target
sectors. `refuses` marks a device on which no write succeeds any more, `alive` a volume that has been neither remounted
nor removed. `Geometry.Valid` is what a mount has checked, with two assumptions on FAT32 volumes that it does not check:
FSInfo lies in front of the FAT (more than one reserved sector), and the root directory starts at cluster 2 or later.
The game's ROM hypotheses are `GoodRom`: ids 0 and 6 to 9 can be passed, 2, 3 and 15 cannot; `ShippedRomGood` derives
them from the 128 bytes of the shipped `ROM/BLOCK_INFO.hex`. The record of an id above 15 lies behind the ROM; the model
lets its bytes 3 and 4 be anything where the code reads them (`beyond`). Where the code uses shifts and masks on disjoint
bit fields the model uses sums and products; `MaskIsMod` justifies the power-of-two masks.

Verify with `dafny verify dfyconfig.toml`.

## What the proofs brought to light

* `f_getfree` counts the two reserved entries on FAT16 and FAT32 but not on FAT12; the counts agree exactly
  when those entries are not zero (`Allocation.ScanIsFreeCount`).
* The FSInfo sector is written through the window without looking at the result, so after a failed write the
  window can differ from its sector while it counts as clean (`FileSync.WriteFsInfo` on a device that refuses);
  the cache invariant excepts that sector once a write has failed, and only then.
* Errors in writing the second FAT are dropped; the copies agree as long as no write has failed (`Window.FatsAgree`).
* A device error between two entries of `create_chain` or `remove_chain` never makes two chains share a cluster
  (`FatRuns.RunKeepsSound`). The one other failure is a FAT12 entry whose two bytes lie in two sectors, from cluster 341 on:
  it may be left half stored, a mixture of its old and new value (`Volume.HalfStored`). That can join two chains
  (`FatRuns.HalfFreed`); `FatRuns.RemoveTornSound` and `FatRuns.CreateTornSound` say exactly when the table survives.
* A device error between the two stores of `create_chain` strands a cluster: it is in use as a chain of its own, and the
  cached free count still counts it as free (`Allocation.StrandedCluster`). An error in `remove_chain` does no such harm.
* `f_sync` clears the modified flag once `sync_fs` has been called, even if that failed, so a second call reports success
  without writing anything: `FileSync.SyncTwice` runs into it. A success means that the device holds the file
  exactly when the call found the flag set or the device held it before (`FileSync.Sync`). A failure before `sync_fs`
  leaves the flag set.
* `SaveMapToSD` does not look at the result of `f_close`. If the card turns read-only between the last write and the
  close, the close fails and the function reports success all the same; the card then holds the directory entry from
  before the save, which says that the file is empty (`MapSave.SaveMap`).
* After `f_truncate` on a sector boundary the buffer may hold a sector that has been freed, as if it were clean. Another
  file may take and write it (`FileRuns.StaleBuffer`).
* Block ids from 128 on are not safe to save: a map that consists of one is lost (`MapSave.LargeIdLost`), though some maps
  with them survive (`MapSave.LargeIdKept`). All maps over a set of ids come back exactly when the set has
  only ids below 128 (`MapSave.RestoredIff`).
* A refused block placement turns water into air (`Game.RefusedPlacement`).
* `onGround` is set in the air after a fast fall: over every fall of more than one block in the tick there is a
  map where nothing solid is below (`Movement.Hovers`); up to one block the flag is right (`Movement.GroundedIff`).
* An alarm started with the delay 2^32 - 1 goes off on the next tick, except when the counter stands at 2^32 - 1; there
  it is on time (`Alarms.LongestDelay`, `Alarms.StartedWaits`).
* A console write of no characters reports an error (`JtagUart.Uart.Write` with n = 0), as the code does.

## Model

| member | source | states |
|---|---|---|
| Bytes.MaskIsMod | software/ff16/source/ff.c:4020 | masking with csize - 1 is the remainder modulo the cluster size, for every power of two |
| Bytes.PowerOfTwoTest | software/ff16/source/ff.c:3600 | the mount-time test accepts exactly the powers of two |
| Volume.FloppyIsValid | software/ff16/source/ff.c:3595-3638 | the geometry the theorems assume can be met: a 1.44 MB floppy disk meets it |
| Volume.ClustersAscend | software/ff16/source/ff.c:1164-1166 | clusters occupy disjoint ascending runs of sectors |
| Volume.EntryIsDigit | software/ff16/source/ff.c:1195-1227 | the FAT is one little-endian number, and entry c is its digit c of 12, 16 or 32 bits, the last without its upper four |
| Volume.StoredEntry | software/ff16/source/ff.c:1254-1303 | after a store, entry c reads as the value cut to 12, 16 or 28 bits; FAT32 keeps its upper four bits |
| Volume.StoredTable | software/ff16/source/ff.c:1254-1303 | on the FAT as a table, a store is one array update |
| Volume.HalfStoredTable | software/ff16/source/ff.c:1265-1277 | a FAT12 store broken off between its two bytes mixes the old and the new value of its entry and damages no other |
| Volume.HalfStored | software/ff16/source/ff.c:1265-1277 | what entry c then reads: the low 4 or 8 bits of the new value under the rest of the old one |
| Volume.FirstStraddle | software/ff16/source/ff.c:1265-1271 | the first entry across a sector boundary is that of cluster 341 on FAT12 |
| Window.FatFs.constructor | software/ff16/source/ff.c:3640-3662 | the volume as a mount leaves it: a clean window, the device as it was, and the free count and hint that FSInfo gives if it is in use and signed, else unknown |
| Window.LoadFsInfo | software/ff16/source/ff.c:3644-3661 | FSInfo is in use exactly if its sector could be read, and believed if it bears the three signatures |
| Window.SyncWindow | software/ff16/source/ff.c:1057-1075 | the logical disk stays; success cleans the window, failure keeps it dirty; nothing but the window sector and its mirror is written |
| Window.WriteMirror | software/ff16/source/ff.c:1067-1069 | the unchecked write to the second FAT touches nothing else, and restores the agreement of the FATs when it succeeds |
| Window.FatsAgree | software/ff16/source/ff.c:1067-1069 | between any two calls, as long as no write has failed, the second FAT equals the first except under a dirty window; failed reads do not matter |
| Window.MoveWindow | software/ff16/source/ff.c:1079-1100 | the logical disk stays; with a clean window nothing is written; success shows the sector asked for, with one exception: FSInfo, if it was in the window already and a write has failed; a failed flush keeps the dirty window in place |
| FatEntries.GetFat | software/ff16/source/ff.c:1176-1244 | reads entry c of the table through the cache, or reports a device error; out of range gives 1; no content changes |
| FatEntries.GetFat12 | software/ff16/source/ff.c:1195-1207 | the packed entry across two window positions |
| FatEntries.PutFat | software/ff16/source/ff.c:1254-1303 | updates exactly entry c of the table, keeps reserved bits, every other entry and every sector outside the FAT, even when it fails; a failure changes no entry, except a FAT12 entry across a sector boundary, which may be left half stored |
| FatEntries.PutFat12 | software/ff16/source/ff.c:1265-1277 | success stores both bytes across the window move; failure stores nothing, or the first byte of an entry whose second byte is in another sector |
| FatEntries.PutFat32 | software/ff16/source/ff.c:1284-1297 | the top four bits of the old word are merged in |
| Chains.NoRepeat | software/ff16/source/ff.c:1539-1632 | a chain never meets itself |
| Chains.SameHeadSameChain | software/ff16/source/ff.c:4033 | the start cluster determines the chain |
| Chains.AppendForest | software/ff16/source/ff.c:1615-1618 | appending a free cluster at a tail keeps the chains disjoint, acyclic and covering |
| Chains.NewChainForest | software/ff16/source/ff.c:1615-1618 | so does starting a new chain with a free cluster |
| Chains.UnlinkChain | software/ff16/source/ff.c:1469-1501 | the removal loop on a chain frees exactly that chain |
| Chains.Unlink | software/ff16/source/ff.c:1469-1501 | the loop terminates on every table at all, cyclic or cross-linked: nonzero entries decrease |
| Chains.CutForest | software/ff16/source/ff.c:1462-1501 | a cut keeps the first k clusters, frees the others and leaves every other chain |
| Chains.SearchComplete | software/ff16/source/ff.c:1601-1614 | the wrap-around search finds a free cluster unless there is none, for every start |
| Chains.PickComplete | software/ff16/source/ff.c:1549-1614 | for every hint, 0, 1 or out of range included, the answer is 0 exactly when no cluster is free or damaged, and otherwise a free one |
| Chains.SearchNearest | software/ff16/source/ff.c:1601-1614 | it is the first one in cyclic order behind the start, unless a damaged entry comes first |
| Chains.PickNearest | software/ff16/source/ff.c:1556-1614 | a chain goes on with the cluster that follows its end if that is free, else with the nearest one behind the hint, or behind that end if the hint is no cluster |
| Allocation.RemovalIsCut | software/ff16/source/ff.c:1462-1501 | remove_chain at position k of a chain, severed behind its predecessor, is the cut at k |
| Allocation.RemoveChain | software/ff16/source/ff.c:1444-1530 | the table afterwards for success and for a damaged entry; after a device error the table some number of rounds left, or one entry across a sector boundary half stored; the free count kept accurate through every failure but a half stored entry, unrelated entries untouched; FSInfo marked as out of date with every change of the count |
| Allocation.RemoveLoop | software/ff16/source/ff.c:1469-1501 | the loop refines the unlinking of the table, on any table, round by round |
| Allocation.SearchFree | software/ff16/source/ff.c:1601-1614 | the search loop ends and returns what the specification search returns |
| Allocation.FindCluster | software/ff16/source/ff.c:1588-1614 | the cluster chosen, next one first |
| Allocation.CreateChain | software/ff16/source/ff.c:1539-1632 | existing successor, one newly appended cluster, or a reason; free count and hint kept, FSInfo marked as out of date when the count changes (Onward); 0 with an accurate count means the volume is full; a device error leaves at most one cluster as a chain of its own, or one entry across a sector boundary half stored |
| Allocation.StrandedCluster | software/ff16/source/ff.c:1615-1628 | a device error between its two stores leaves a cluster in use that the cached count still counts as free |
| Allocation.ScanIsFreeCount | software/ff16/source/ff.c:4998-5016 | the word scan counts reserved entries too: it is the free count if and only if those two are not zero |
| Allocation.GetFree | software/ff16/source/ff.c:4956-5024 | the cached count if valid, else the scan of the whole table, after which FSInfo is marked as out of date; only a FAT12 scan finds damaged entries |
| Allocation.ScanSectors | software/ff16/source/ff.c:4998-5016 | the sector scan counts all zero entries |
| FatRuns.CreateKeepsSound | software/ff16/source/ff.c:1539-1632 | create_chain keeps the table a forest, also when a device error breaks it off between two entries |
| FatRuns.RemoveKeepsSound | software/ff16/source/ff.c:1444-1530 | so does remove_chain, broken off after any number of entries: what is left of the chain is a chain |
| FatRuns.RemovedIsCut | software/ff16/source/ff.c:1444-1530 | a properly called remove_chain that is not broken off is a cut of one chain |
| FatRuns.RunKeepsSound | software/ff16/source/ff.c:1444-1632 | in every state of every run of both, failed calls included, the table is a forest of disjoint acyclic chains |
| FatRuns.CutTableKept | software/ff16/source/ff.c:1444-1530 | what a removal for one file, broken off or not, means for the whole table: still a forest, and no head of another chain gets a predecessor |
| FatRuns.Undamaged | software/ff16/source/ff.c:1551 | a forest has no entry 1, so the damaged-table errors cannot come from it |
| FatRuns.StrayLink | software/ff16/source/ff.c:1265-1277 | any entry left at h by a broken store, whatever it was: with c ended instead, the table is still a forest if and only if h is an end mark, or 0 and c a whole chain, or the head of a chain that does not run through c |
| FatRuns.RemoveTornSound | software/ff16/source/ff.c:1444-1530 | a removal that leaves an entry half stored: a sound table changed in that one entry, and still a forest exactly when the value left there may stand |
| FatRuns.CreateTornSound | software/ff16/source/ff.c:1539-1632 | the same for an allocation |
| FatRuns.TornOnChain | software/ff16/source/ff.c:1265-1277 | a removal can only do so if an entry from its predecessor on along the chain lies across a sector boundary |
| FatRuns.HalfFreed | software/ff16/source/ff.c:1476-1480 | an outcome of remove_chain for which it is not: freeing the chain 341, 261 breaks off in its first entry, which lies across a sector boundary and then leads to the middle of another chain |
| FatRuns.ClustersConserved | software/ff16/source/ff.c:1444-1632 | clusters on chains and free clusters are all clusters: none is lost or counted twice |
| Layout.SectorAt | software/ff16/source/ff.c:4040-4042 | sector k of a file is sector k % csize of cluster k / csize of its chain |
| Layout.ChainSectors | software/ff16/source/ff.c:4040-4042 | the sectors of a chain are distinct and lie in the data area |
| FileState.File.constructor | software/ff16/source/ff.c:3933-3952 | a file opened without FA_OPEN_APPEND and not just created: the invariant holds at position 0 |
| FileState.CreatedFileIsLaid | software/ff16/source/ff.c:3852-3885 | a file just created, with its entry in the static root of a FAT12 or FAT16 volume, has a sound layout: the sessions have a first state |
| FileState.Clst2SectIsBase | software/ff16/source/ff.c:1159-1167 | the wrapped subtraction gives the cluster base, and 0 for every invalid number |
| FileState.OtherHandleKept | software/ff16/source/ff.c:3996-5078 | what a call on one file means for another open one, dirty buffer and all: same chain, same bytes, still apart |
| FileState.SectorKept | software/ff16/source/ff.c:3996-5078 | a directory sector, in the static root or in a cluster of its own, shows what it showed before the call |
| FileRead.FlushBuffer | software/ff16/source/ff.c:4066-4069 | writing the dirty buffer back does not change the file |
| FileRead.LoadSector | software/ff16/source/ff.c:4064-4074 | after it the buffer repeats the sector asked for, and the file is unchanged; a sector that is there already costs no device call |
| FileRead.EnterCluster | software/ff16/source/ff.c:4021-4039 | the cursor moves to the cluster of the next byte |
| FileRead.ReadDirect | software/ff16/source/ff.c:4048-4058 | a multi-sector read with the cached sector put over it |
| FileRead.ReadStep | software/ff16/source/ff.c:4018-4083 | one round delivers a nonempty slice of the file from the position on |
| FileRead.ReadLoop | software/ff16/source/ff.c:4018-4084 | all rounds together; other files keep their chains and sectors |
| FileRead.Validate | software/ff16/source/ff.c:3695-3722 | a volume once gone stays so for its open files; nothing else changes |
| FileRead.Read | software/ff16/source/ff.c:3996-4087 | delivers exactly bytes [fptr, min(fptr + btr, size)); the file and the table never change, nothing is written unless something had to be; every failure has its cause, and on a volume that is gone every call fails |
| FileWrite.ChainGrown | software/ff16/source/ff.c:4138-4145 | growing the chain by a free cluster changes no byte of the file |
| FileWrite.Stretch | software/ff16/source/ff.c:4125-4145 | create_chain for this file: successor or one more cluster, other files kept |
| FileWrite.SectorsWritten | software/ff16/source/ff.c:4163-4175 | sectors written directly splice their bytes into the file, with the buffer refilled when it held one of them |
| FileWrite.BufferWritten | software/ff16/source/ff.c:4201-4202 | bytes put into the buffer splice into the file |
| FileWrite.WriteSectors | software/ff16/source/ff.c:4159-4179 | the direct path |
| FileWrite.CopyIn | software/ff16/source/ff.c:4194-4203 | the buffered path |
| FileWrite.WriteStep | software/ff16/source/ff.c:4122-4203 | one round splices a nonempty prefix, or stops because no cluster is free |
| FileWrite.WriteLoop | software/ff16/source/ff.c:4122-4204 | all rounds together |
| FileWrite.Clipped | software/ff16/source/ff.c:4117-4120 | the request is clipped so that the size stays below 4 GiB |
| FileWrite.Write | software/ff16/source/ff.c:4097-4209 | splices in exactly the first bw bytes; fewer than asked only at 4 GiB or without a free cluster; a success sets the modified flag; other files keep chain and sectors, and the table stays a forest unless an entry is left half stored, whatever happens |
| FileSeek.SeekCurrent | software/ff16/source/ff.c:4644-4648 | starting from the current cluster |
| FileSeek.SeekFirst | software/ff16/source/ff.c:4649-4660 | starting from the first cluster, creating one if there is none |
| FileSeek.SeekNext | software/ff16/source/ff.c:4664-4681 | one cluster on, stretching in write mode |
| FileSeek.SeekLoop | software/ff16/source/ff.c:4662-4682 | the loop arrives at the cluster of the target, or runs out of clusters |
| FileSeek.TargetSector | software/ff16/source/ff.c:4683-4688 | the sector computed is the one of the new position |
| FileSeek.SeekArrive | software/ff16/source/ff.c:4683-4706 | position, size and buffer after arriving |
| FileSeek.Lseek | software/ff16/source/ff.c:4555-4706 | the position asked for, clipped to the size when reading; old bytes kept; stretched as far as clusters go; the modified flag is set exactly when the size grows, and otherwise chain and device stay |
| FileSeek.CursorUnique | software/ff16/source/ff.c:4642-4706 | seeking from the current cluster and from the first one, and reading up to the place, give the same cluster and sector |
| FileTruncate.ClustersForIsCeiling | software/ff16/source/ff.c:5050-5062 | the clusters kept are the ceiling of fptr by the cluster size |
| FileTruncate.CutFile | software/ff16/source/ff.c:5050-5075 | the cut file holds the bytes before the position |
| FileTruncate.FileAfterCut | software/ff16/source/ff.c:5050-5075 | cut and write-back together keep the invariant, even when the buffer belongs to a freed cluster |
| FileTruncate.Truncate | software/ff16/source/ff.c:5036-5078 | bytes before the position stay, the chain keeps exactly the clusters that hold them, the others become free; the modified flag is set exactly when something is cut, otherwise nothing changes; other files are kept |
| FileSync.WriteFsInfo | software/ff16/source/ff.c:1121-1130 | the FSInfo sector holds the free count and hint when the unchecked write succeeded; on a read-only device a clean window is left that differs from its sector |
| FileSync.SyncInfo | software/ff16/source/ff.c:1119-1130 | FSInfo is written when the allocation has changed, and gives count and hint unless the write failed |
| FileSync.SyncFs | software/ff16/source/ff.c:1110-1149 | the window is flushed, and nothing but it, its mirror and FSInfo is written; after a success nothing is pending; with nothing to write the answer is that of the device |
| FileSync.EntryRoundTrip | software/ff16/source/ff.c:1865-1893 | the start cluster and size written into a directory entry load back |
| FileSync.OpenEntry | software/ff16/source/ff.c:3927-3952 | the file object an open makes from the entry in the window reads the bytes that entry leads to |
| FileSync.UpdateEntry | software/ff16/source/ff.c:4272-4279 | exactly the fields of this entry change in the directory sector |
| FileSync.EntryApart | software/ff16/source/ff.c:4270-4281 | updating the directory entry changes no byte of the file |
| FileSync.FlushedIsDurable | software/ff16/source/ff.c:4228-4282 | with buffer and window flushed, the device alone holds the file |
| FileSync.Sync | software/ff16/source/ff.c:4218-4283 | the abstract file never changes; after a success the device alone holds the file if and only if there was something to do or it held it before; FSInfo then gives count and hint if they had changed and no write has failed; what a failure leaves; other files keep chain and sectors |
| FileSync.Remount | software/ff16/source/ff.c:3640-3662 | with the file on the device, FSInfo in use and no new error, a mount finds the same table, free count and hint, and an accurate count is accurate again |
| FileSync.TruncateAndSync | software/ff16/source/ff.c:4218-5078 | a truncation and a flush that both succeed leave exactly the bytes before the position on the device |
| FileSync.SyncTwice | software/ff16/source/ff.c:4218-4283 | on a mounted device that has become read-only the first of two calls reports the error, the second success, and the file is not on the device |
| FileRuns.Serve | software/ff16/source/ff.c:3996-5078 | each call answers as a byte string with a position; a short write or seek has its reason |
| FileRuns.Session | software/ff16/source/ff.c:3996-5078 | any sequence of read, write, seek, truncate and sync, up to the first error, is a run of that byte string, and the error has one of the stated reasons; what the device does not hold the modified flag tells, and a session that ends in a flush leaves the file on the device; the free count stays accurate, FSInfo up to date, other files keep chain and sectors, and the whole table stays a forest even through the error, unless a FAT12 entry across a sector boundary was left half stored |
| FileRuns.ReadBack | software/ff16/source/ff.c:3996-4209 | in every session, what was written completely and sought back to is read back |
| FileRuns.ShortOnlyWhenFull | software/ff16/source/ff.c:4097-4209 | in a session with an accurate free count, a write falls short below 4 GiB only when no cluster is free |
| FileRuns.ServeBeside | software/ff16/source/ff.c:3996-5078 | a request on one handle leaves the other open file sound, with the same bytes at the same position; the handle itself stays ready if and only if its buffered sector stays in its chain |
| FileRuns.CutKeepsBuffer | software/ff16/source/ff.c:5036-5078 | a truncation inside a sector, at the end of the file or with nothing buffered keeps the buffered sector in the chain |
| FileRuns.CutToStale | software/ff16/source/ff.c:5036-5078 | any other truncation leaves a clean buffer on a sector of a free cluster |
| FileRuns.StaleBuffer | software/ff16/source/ff.c:5036-5078 | from there a step open to the other file, with an end mark in the table, makes the clean buffer differ from its sector |
| FileRuns.Overwritten | software/ff16/source/ff.c:4097-5078 | and so does any call after which the other file shows other bytes there |
| FileRuns.Interleave | software/ff16/source/ff.c:3996-5078 | all five requests on two handles in any interleaving, up to the first error or to a truncation on a sector boundary with a sector buffered: each is a run of its own byte string, and the table stays a forest with both chains in it |
| DirCursor.ChainAgrees | software/ff16/source/ff.c:1784-1812 | in a cluster chain, stepping from index ofs is setting index ofs + 32 |
| DirCursor.StaticAgrees | software/ff16/source/ff.c:1779-1783 | in the static root too, whose size is a whole number of sectors |
| DirCursor.WalkIsSdi | software/ff16/source/ff.c:1714-1813 | setting index k equals k steps from the top, on every volume type and table: same cluster, sector and offset, or neither |
| DirCursor.FollowChain | software/ff16/source/ff.c:1737-1747 | the loop follows the chain as specified and ends |
| DirCursor.SdiIsEntry | software/ff16/source/ff.c:1714-1753 | setting index k of a directory, static root or chain: sector k / 16 of it at offset 32 * (k % 16), or none exactly when it has no such sector, or k is out of range or between entries |
| DirCursor.NextIsEntry | software/ff16/source/ff.c:1762-1813 | stepping from entry k goes to entry k + 1, or to the end exactly when there is none; a chain is never found damaged |
| DirCursor.DirSdi | software/ff16/source/ff.c:1714-1753 | the cursor is on that entry of the directory, in the static root or in its chain, or there is none, or the device failed |
| DirCursor.DirNext | software/ff16/source/ff.c:1762-1813 | from entry k the cursor moves to entry k + 1, or there is none, or the device failed |
| MapSave.DecodeEncodeFrom | software/main.c:753-798 | decoding the rest of a coding gives the rest of the map |
| MapSave.RoundTrip | software/main.c:739-897 | decoding the coding of any map with ids below 128 gives the map back, whatever follows in the file |
| MapSave.LargeIdLost | software/main.c:765-771 | an id from 128 on does not come back from the map that consists of it |
| MapSave.LargeIdLostBefore | software/main.c:765-771 | nor from in front of any smaller one |
| MapSave.LargeIdKept | software/main.c:765-771 | but not every such map is lost |
| MapSave.RestoredIff | software/main.c:739-897 | the maps over a set of ids all come back if and only if every id in the set is below 128 |
| MapSave.EncodedSize | software/main.c:765-803 | the coding is never longer than the map and never shorter than two bytes in 127 |
| MapSave.EncodeShortest | software/main.c:753-897 | no stream whatever that the decoder turns into the map is shorter than its coding |
| MapSave.PushByte | software/main.c:742-751 | a byte enters the chunk buffer, which is written out when full; nothing is lost between the two, or there is a reason |
| MapSave.PushRun | software/main.c:765-774 | a finished run is produced, or there is a reason |
| MapSave.PushMap | software/main.c:753-798 | the scan produces exactly the coding of the map, or there is a reason |
| MapSave.PushTail | software/main.c:800-804 | the last part of the buffer, or a reason |
| FileWrite.StillCannotGrow | software/ff16/source/ff.c:4122-4150 | a table without a free cluster, or with a damaged entry, remains so: the reason for a short write does not go away |
| MapSave.SaveMap | software/main.c:710-823 | success: the file is the player record followed by the coding of the map; failure: a device error, a volume that is gone, a file not open for writing, no cluster, a damaged table or 4 GiB; stored on the device if the ignored close succeeded; if the card turns read-only behind the last write, success is reported all the same, since the error of the close is no reason, and the card holds the old, empty entry |
| MapSave.CloseSave | software/main.c:800-816 | the close: what it leaves on the device and why the file is not there on a read-only card |
| MapSave.FetchByte | software/main.c:854-861 | the next byte of the stream across buffer refills; no byte only at the end of the file, after a device error or on a volume that is gone |
| MapSave.LoadStep | software/main.c:864-885 | one tag or literal: the decoder takes one step; a step not taken has its reason |
| MapSave.LoadLoop | software/main.c:864-893 | ends on every stream; writes a growing prefix of the decoding and nothing else; without a failed read it writes all that the stream tells |
| MapSave.LoadMap | software/main.c:825-910 | success means player and map are what the file encodes; failure means a device error, a volume that is gone, or a file that is too short, which is then written as far as it goes |
| MapSave.SaveThenLoad | software/main.c:710-910 | save, close, open at the directory entry on the device, load: once the first two report success, the same player and map come back unless there is a device error or the volume is gone |
| MapSave.SavedMapLoads | software/main.c:710-910 | a saved file is never too short, and loading it gives back the saved player and map |
| Blocks.IndexInOrder | software/main.c:189-195 | the map holds the cells by planes of equal x, each by rows from the floor up, and every byte is a cell |
| Blocks.BlockAfter | software/main.c:186-197 | getBlock after setBlock |
| Blocks.ShippedRomGood | software/main.c:199-203 | the 128 bytes of the shipped ROM let exactly air and water through, which implies what the game relies on |
| Blocks.TouchesIsOverlap | software/main.c:297-312 | the cells tested are exactly those whose cube the box meets |
| Blocks.FreeIsInside | software/main.c:296-314 | a box that hits nothing is inside the sides and above the floor of the world |
| Movement.MovedStaysFree | software/main.c:603-631 | no displacement, however large, moves a free box into a solid block |
| Movement.StopsInFront | software/main.c:603-609 | a move along x that hits, and reaches the next column at most, ends right in front of what it hit: one unit further, or two towards the lower side, hits |
| Movement.StopsInFrontY | software/main.c:611-623 | the same upwards and downwards for at most one block |
| Movement.StopsInFrontZ | software/main.c:625-631 | the same along z |
| Movement.OpenSpace | software/main.c:603-631 | with nothing in the way the player moves by exactly the displacement |
| Movement.HitLayer | software/main.c:611-618 | a vertical hit is on a block of another layer, above when rising, below when falling |
| Movement.LandsAbove | software/main.c:618-621 | after a fall of at most one block onGround means a solid block right below |
| Movement.Hovers | software/main.c:618-621 | for every longer fall there is a map over which it is set with nothing solid below |
| Movement.GroundedIff | software/main.c:611-623 | so the flag can be relied on, for all maps and players, if and only if the tick falls at most one block |
| Movement.MovedYBounded | software/main.c:611-623 | vertical motion keeps the height below the ceiling |
| Movement.UpdatedStaysFree | software/main.c:633-672 | one tick keeps the player out of blocks and below the ceiling |
| Movement.Ballistic | software/main.c:653-672 | in open air, without a key, the height after n ticks follows the law of uniform acceleration until the fall is as fast as it gets |
| Movement.JumpHeight | software/main.c:656-672 | a jump from the ground in open air rises 83301 / 65536 blocks, more than one and less than two, and then falls |
| Movement.SpawnIsSafe | software/main.c:564-596 | the start positions of both map generators are free and bounded when the column above the top block found is air; genMap looks for it from y = 125 down, so cells 126 and 127 of that column are assumed to be air |
| Movement.NoOverflow | software/main.c:603-631 | for displacements up to 2^14 blocks a side, the sums of an axis move and the products of its snap fit an int32 |
| WaterFlow.SimBox | software/main.c:357-367 | the simulated box is the cells of the world at most eight blocks from the player along every axis |
| WaterFlow.SweepConserves | software/main.c:369-401 | a sweep changes only air and flowing water, into air or flowing water, and nothing outside the box |
| WaterFlow.SweepStaysFree | software/main.c:357-402 | water never closes in on the player |
| WaterFlow.FixedPoint | software/main.c:369-401 | an in-place sweep changes nothing if and only if every cell it visits is settled already |
| WaterFlow.SupportOf | software/main.c:374-393 | a settled flowing cell has a support strictly higher, or level with it and stronger |
| WaterFlow.SettledIff | software/main.c:374-393 | a cell is settled exactly when: no air where water comes in from above or spreads from beside; type 7 below water; else one more than the least that spreads here |
| WaterFlow.StepBalances | software/main.c:373-398 | simulating a cell makes it so, and changes no other |
| WaterFlow.StillIffBalanced | software/main.c:357-402 | a sweep leaves the map as it was if and only if every cell of the box is so: water has spread as far as it goes |
| WaterFlow.FlowHasSource | software/main.c:357-402 | in a fixed point every flowing cell is joined by supports to a source or to water outside the box |
| WaterFlow.StillWaterIsFed | software/main.c:357-402 | if a sweep leaves the map as it was, every flowing cell of the box is fed |
| Game.BrokenStaysFree | software/main.c:316-329 | breaking a block keeps the player free |
| Game.PlacedStaysFree | software/main.c:331-354 | placing a block, or refusing to, keeps the player free |
| Game.BrokenBlocks | software/main.c:316-329 | block by block: the broken one is air, dirt below it turns to grass, no other changes |
| Game.PlacedBlocks | software/main.c:331-354 | block by block: nothing into solid ground, air where the player stands in the way, else the new block with grass below turned to dirt; no other changes |
| Game.ReshapedFirm | software/main.c:316-402 | no tick changes a solid block that cannot be broken and is neither grass nor dirt |
| Game.BedrockIsFirm | software/main.c:320-323 | with the shipped ROM these are the bedrock blocks and no others |
| Rays.TargetInFront | software/main.c:331-341 | a block is placed in the cell the ray came through just before the block it hit, and that cell can be passed |
| Rays.MergeOnward | software/main.c:246-268 | taking the nearest crossing keeps the crossings of the ray in order of distance |
| Rays.WalkOnward | software/main.c:246-268 | one step of the ray goes through one face into the next cell |
| Game.RefusedPlacement | software/main.c:343-347 | a refused placement restores the map if and only if the target was air: it wipes out water |
| Game.World.GetBlock | software/main.c:186-191 | bedrock outside and below, air above, else the byte of the map |
| Game.World.SetBlock | software/main.c:193-197 | one cell of the map, or nothing outside |
| Game.World.CheckHitAABB | software/main.c:297-314 | true exactly when the box touches a solid block |
| Game.World.MovePlayer | software/main.c:603-631 | the player after the three axis moves; free before implies free after |
| Game.World.UpdatePlayerLogic | software/main.c:653-672 | the tick of the player once its displacement is known |
| Game.World.BreakBlockAction | software/main.c:316-329 | the map after breaking, the player safe, whatever an id above 15 reads behind the ROM |
| Game.World.PlaceBlockAction | software/main.c:331-354 | the map after placing or undoing, the player safe |
| Game.World.CastRay | software/main.c:213-286 | the first opaque block along a path of face-adjacent cells from the eyes, all transparent and inside the world before it, crossings in order of distance, at most 24 steps; or none |
| Game.World.CalcPlayStatus | software/main.c:409-425 | the block faced is the one that is there |
| Game.World.SideLevel | software/main.c:382-385 | what a neighbour counts for |
| Game.World.IdealType | software/main.c:374-393 | the type called for |
| Game.World.SimulateCell | software/main.c:373-398 | one cell of the sweep, after which it is balanced and no other has changed |
| Game.World.WaterSim | software/main.c:357-402 | the sweep in place visits each cell of the box once, in the order of the loops; it changes nothing if and only if nothing is left to flow anywhere in the box, and then every flowing cell is fed from a source or from outside the box |
| Game.World.Tick | software/main.c:1353-1367 | one pass of the game loop: the player moved, the map broken, placed and swept in that order, then the ray cast; the player safe and bedrock kept, for any keys and any direction |
| Game.World.Play | software/main.c:1348-1369 | in every run of the game the player is in no solid block and inside the world after every tick, and no bedrock is ever lost |
| Rings.Fifo | NIOSAPP_bsp/drivers/src/altera_avalon_jtag_uart_init.c:132-184 | what was pushed is what was popped followed by what the indices say is in the ring, at most BUF_LEN - 1 bytes |
| JtagUart.DrainTakes | NIOSAPP_bsp/drivers/src/altera_avalon_jtag_uart_init.c:132-153 | the receive loop takes the valid characters offered, in order, as many as there is room for, and asks for the mask exactly when the ring is full and more remain |
| JtagUart.PassMeans | NIOSAPP_bsp/drivers/src/altera_avalon_jtag_uart_init.c:125-195 | one pass: characters come in for the read bit only, and one does if offered with room; characters go out for the write bit only, and one does if waiting with space; an interrupt is turned off only on a full or an empty ring |
| JtagUart.MaskedOnlyWhenFull | NIOSAPP_bsp/drivers/src/altera_avalon_jtag_uart_init.c:128-162 | the receive interrupt is turned off only when the ring is full |
| JtagUart.MaskedWhenEmpty | NIOSAPP_bsp/drivers/src/altera_avalon_jtag_uart_init.c:146-161 | a data register that claims more characters without a valid one would turn it off on an empty ring |
| JtagUart.Uart.constructor | NIOSAPP_bsp/drivers/src/altera_avalon_jtag_uart_init.c:66-100 | both rings empty, receive interrupt on |
| JtagUart.Uart.Fifos | NIOSAPP_bsp/drivers/src/altera_avalon_jtag_uart_init.c:105-197 | wherever an interrupt can strike: both directions first in first out, never full beyond BUF_LEN - 1, and no data stranded |
| JtagUart.Uart.IrqReceive | NIOSAPP_bsp/drivers/src/altera_avalon_jtag_uart_init.c:125-167 | takes exactly the characters that fit and are offered, and masks accordingly |
| JtagUart.Uart.IrqTransmit | NIOSAPP_bsp/drivers/src/altera_avalon_jtag_uart_init.c:169-195 | sends exactly min(space, waiting) characters in order, and masks when none is left |
| JtagUart.Uart.Irq | NIOSAPP_bsp/drivers/src/altera_avalon_jtag_uart_init.c:105-197 | pass by pass up to the first without a pending bit: what has come in and gone out and what is enabled; nothing comes in without a read bit, nothing goes out without a write bit; a character offered to the first pass is taken if there is room, one waiting is sent if there is space |
| JtagUart.Uart.FillOnce | NIOSAPP_bsp/drivers/src/altera_avalon_jtag_uart_write.c:103-127 | snapshot, copy and publish with interrupts anywhere between |
| JtagUart.Uart.Write | NIOSAPP_bsp/drivers/src/altera_avalon_jtag_uart_write.c:83-215 | takes over exactly the first n characters in order and reports n; no fewer than there was room for; a short blocking call leaves the ring full; leaves no data stranded |
| JtagUart.Uart.TakeOnce | NIOSAPP_bsp/drivers/src/altera_avalon_jtag_uart_read.c:119-142 | snapshot, copy and release with interrupts anywhere between |
| JtagUart.Uart.Read | NIOSAPP_bsp/drivers/src/altera_avalon_jtag_uart_read.c:100-203 | hands over the next n characters in order and reports n; no fewer than there were; a blocking call that hands over nothing leaves the ring empty; leaves the receiver awake |
| JtagUart.Uart.Close | NIOSAPP_bsp/drivers/src/altera_avalon_jtag_uart_init.c:241-254 | without a timeout everything written has gone to the device; would-block only in non-blocking mode with data left and an active host; data given up only for an inactive host |
| Alarms.ArmedEncodes | NIOSAPP_bsp/HAL/src/alt_alarm_start.c:80-96 | time and rollover stand for the deadline now + nticks + 1 if and only if nticks is not 2^32 - 1 or the counter is at its last tick |
| Alarms.LongestDelay | NIOSAPP_bsp/HAL/src/alt_alarm_start.c:80-96 | that delay is due on the very next tick, exactly in the other case |
| Alarms.TickEncodes | NIOSAPP_bsp/HAL/src/alt_tick.c:96-115 | across the wrap of the counter the pair keeps standing for its deadline and is due exactly there |
| Alarms.RearmedEncodes | NIOSAPP_bsp/HAL/src/alt_tick.c:121-138 | after a callback result r the pair stands for the deadline r ticks later |
| Alarms.TurnOnTime | NIOSAPP_bsp/HAL/src/alt_tick.c:100-141 | one turn of an alarm: called back exactly on its deadline, else left waiting |
| Alarms.StartedWaits | NIOSAPP_bsp/HAL/src/alt_alarm_start.c:75-96 | a started alarm waits for its deadline, again exactly then |
| Alarms.Clock.Start | NIOSAPP_bsp/HAL/src/alt_alarm_start.c:64-112 | the alarm is first on the list with its deadline, or why not |
| Alarms.Clock.Stop | NIOSAPP_bsp/HAL/src/alt_tick.c:66-73 | exactly this alarm, started at some time, leaves the list |
| Alarms.Clock.Service | NIOSAPP_bsp/HAL/src/alt_tick.c:102-140 | one alarm of the walk |
| Alarms.Clock.ServeAll | NIOSAPP_bsp/HAL/src/alt_tick.c:100-141 | every alarm has its turn once while those that return 0 leave the list |
| Alarms.Clock.Tick | NIOSAPP_bsp/HAL/src/alt_tick.c:87-148 | every alarm on the list is called back exactly on its deadlines, and leaves exactly when it returns 0 |
| Alarms.Clock.Run | NIOSAPP_bsp/HAL/src/alt_tick.c:87-148 | over any number of ticks an alarm is first called back on its deadline and not before |

## Left out

- exFAT, long file names, file locks, re-entrancy, code pages, GPT, formatting, string functions and fast seek: compiled out by the configuration.
- Path parsing, name matching, directory creation and removal, attributes, labels: many easy branches over the directory cursor. `f_open` is represented by its end, which makes the object from the entry found (`FileSync.OpenEntry`), `f_close` by `f_sync`.
- Mounting: its checks are the invariant `Geometry.Valid`, its end is `Window.FatFs.constructor`, and the volume is assumed to lie inside the 32-bit sector range.
- Sector transfer over SPI: `DiskRead`, `DiskWrite` and the sync command may succeed or fail at will.
- When a volume is remounted or removed: `FileRead.Validate` may find it so at any call, and then at every later one. The file time stamp is a parameter.
- FileRuns.Interleave: the run ends before a truncation on a sector boundary while a sector is buffered, because that sector may be freed; more than two handles are covered by `FileState.OtherHandleKept` for each pair.
- FileRuns.ServeBeside: after such a truncation nothing is promised for the next request on that handle.
- FileRuns.Session: after a FAT12 entry has been left half stored nothing is said about the table as a whole; what such a call leaves is stated by `FatRuns.RemoveTornSound` and `FatRuns.CreateTornSound`.
- FileState.File.constructor: FA_OPEN_APPEND, which seeks to the end, and the modified flag of a file just created.
- FileState.CreatedFileIsLaid: an entry in a directory that is itself a cluster chain needs the directory's chain to be disjoint from the file's, which this lemma would have to assume.
- DirCursor.DirNext: without the stretch argument, so growing a directory by a cleared cluster is not modelled.
- MapSave.SaveMap: the slot's file name, the progress bar and the log are not modelled; the file is given as just created and empty.
- MapSave.LoadMap: likewise for opening; the player record is a byte array, not its fields.
- Game.World.UpdatePlayerLogic: turning the head, and the products with the sine table that give the displacement; the displacement is a parameter with any value.
- Game.World.CastRay: the distances to the crossings rest on tables and custom processor instructions that are not part of this model; they are parameters with any values, and so is the answer whether the block hit is near.
- Movement.SpawnIsSafe: cells 126 and 127 of the spawn column are assumed to be air, because genMap does not look at them.
- Movement.NoOverflow: for displacements of at most 2^14 blocks in a tick; the keys give far smaller ones.
- Terrain generation, menus, text output, sound, and the registers of the picture unit.
- JtagUart.Uart.Write: the wait for space is over when the index moves or the host is inactive; a wait that never ends is not modelled, nor are threads of an operating system that write at the same time.
- JtagUart.Uart.Read: the same for the wait for data.
- The periodic host-activity check of the console only feeds those waits and is not modelled.
- Alarms.Clock.Stop: an alarm never started, whose list links are not initialised.
- Alarms.Clock.Tick: callbacks that start or stop alarms themselves are not modelled; the doubly linked list is a sequence, and alarm structures are a map by address.
- The small console driver, the branches for an operating system, and the other files of the hardware abstraction layer.
