# A verified model of FFSP

FFSP is a log-structured file system for raw flash. This project models its storage engine in Dafny, with the
vendored `getopt.c` beside it, and proves what the engine keeps over every operation. `dafny verify dfyconfig.toml`
checks all of it.

The state is one mutable context, `Layout.FsContext`: the device as a byte sequence, `eb_usage`, `ino_map`,
`cl_occupancy`, the inode cache, the dirty inodes, the summaries, the gc counters and the one work buffer. Three ghost
fields hold the abstract view it is checked against: the current version of every inode, the group of inodes every
cluster was written with, and who wrote every cluster of indirect data. Loops and updates of the program are methods
on that context; each is proved against functions and predicates on values, and the properties are lemmas about those.

| part | modules |
|---|---|
| geometry, buffers, big-endian words | Basics, Layout |
| log allocator and summaries | EraseBlk, Summaries, Allocator |
| file data in its three layouts | FileData, IoUnits, IoRead, IoClin, IoEbin, IoEmb, IoTrunc, IoConvert, WriteSpec, Io, IoLimits |
| inode log, cache and occupancy | InodeCodec, InodeGroups, InodeLog, Inodes, LogLimits |
| several files, and whole runs | Volume, Runs |
| garbage collection, as written and as meant | Gc, Compaction |
| mkfs, mount, unmount | MetaData, Mount, Mkfs |
| directories and link counts, on values and on the files | Links, Dentries, Directories, Naming |
| runs of file and directory operations | Sessions |
| dirty bits | BitOps |
| command line | Rotation, Getopt |

The main result is `Sessions.Session`: whatever sequence of create, mkdir, link, unlink, rmdir, write, truncate and
remount is run on a file system in order, as long as each is one of `Sessions.Safe` where it stands, its names, link
counts and files are what the same operations make of a plain tree, and a run that stops early has one of the causes
listed in `Sessions.Halted` and leaves the tree that `Sessions.Left` says. `Sessions.Begin` gives such a file system
from mkfs and mount. `Naming` has each operation on names for itself, on the bytes of directory files and the inodes
of the table, with the exact conditions under which the volume stays in order; `Runs.Run` has the files alone,
directories among them. Below these, `Io.WriteData` and `Io.TruncData` decide for every single call, in terms of the
state before it, whether the result is the intended one.

The geometry is the one the program supports: C divides E, 4 divides C, C > 128, 2 <= E/C <= 65535, the entries of a
summary fit a cluster, neraseopen is 3, 4 or 5, nerasewrites >= 1, and the device is smaller than 4 GiB because cluster
and block offsets are 32-bit products. Device reads and writes succeed. A loop that can no longer make progress is
modelled by the result `Stalled`, an access behind the pointer table of an inode by `OutOfTable`, an undo that takes
cluster pointers for erase blocks by `Astray`.

## Findings

Where the program does not do what its comments or its own structure promise, the code is modelled as it is, and the
exact condition for the promise is proved. Where one has to see that it can fail, a concrete state that keeps the
invariants is given.

| place | what happens | where it is decided |
|---|---|---|
| src/libffsp/gc.cpp:257 | `move_inodes` skips a cluster when reading it succeeded, so nothing moves and gc never returns once a due type has a block to collect | `Gc.RunGc` (if and only if), `LogLimits.GcStuckHere`; `Compaction.RunGcValid` proves the version that is meant |
| src/libffsp/gc.cpp:244-290 | moving inodes leaves `cl_occupancy` behind | `Compaction.OccLeftBehind` |
| src/libffsp/gc.cpp:426 | gc goes on with exactly the reserve left, but then there is no destination block | `Compaction.CollectValid` (if and only if), `Compaction.RunGcValid` (if and only if, by the empty blocks and due types before the call), `LogLimits.NoDestination` |
| src/libffsp/inode.cpp:557-570, 642-655 | freeing an inode that is dirty and on disk counts it out of its cluster a second time | `InodeLog.UnlinkStep`, `Inodes.FreeInode`, `Volume.UnlinkFile`, `Naming.Unlink`, `Naming.Rmdir` with `Naming.StaleBefore` (if and only if), `LogLimits.DirtyOnDisk` |
| src/libffsp/inode.cpp:194-241 | `remove_dentry` looks for the number, so another name of the same file may go | `Links.RemovesItsName`, `Links.Namespace.Unlink` (if and only if), `Links.WrongNameRemoved` |
| src/libffsp/inode.cpp:316-358, 527-692 | `unlink` and `rmdir` accept the names "." and ".." and take the entry, or the directory itself, away | `Links.UnlinkedDotsLost`, `Links.RemovedDotsLost` (always), `Links.Namespace.Unlink`, `Links.Namespace.Rmdir` |
| src/libffsp/inode.cpp:507-692 | `link`, `unlink` and `rmdir` do not ask for the kind of inode: a directory linked or unlinked, or a file with several names removed as a directory, leaves counts or names wrong | `Naming.Link`, `Naming.Unlink`, `Naming.Rmdir` (if and only if), `Links.UnlinkedDirLost`, `Links.LinkedDirMiscounts`, `Links.RemovedFile` |
| src/libffsp/inode.cpp:507-525 | `link` does not mark the inode dirty, so its new count may never reach the disk | `InodeLog.LinkStep`, `Inodes.LinkInode`, `Naming.Link` with `Naming.MarkedBefore` (if and only if), `InodeLog.LinkLost` |
| src/libffsp/io.cpp:465-470, 562-563 | a write that ends inside a hole brings stale buffer bytes into the file | `WriteSpec.RewriteIsSplice` and `Io.WriteData` (if and only if), `IoLimits.WriteIntoHole` |
| src/libffsp/io.cpp:332-336 | a gap opened inside the last unit is not cleared | the same, with `IoLimits.GrowOverOldBytes` |
| src/libffsp/io.cpp:220 | `trunc_emb2ind` leaves the last entry, so a growing truncate keeps embedded bytes as a pointer | `Io.TruncData`, `Io.StrayMeans`, `Io.StrayClinMeans` (if and only if), `IoLimits.GrowOutOfInode` |
| src/libffsp/io.cpp:286-295 | a conversion refused before its first block computes the number of blocks to give back from `written - 1` with nothing written; for an erase block size that does not divide 2^32 the wrapped number can be positive, and cluster pointers are given back as erase blocks, of other files too | `IoConvert.ConvertUndo`, `IoConvert.TruncClin2Ebin`, `Io.WriteData`, `Volume.WriteFile` (if and only if), `IoConvert.UndoCountOfPower`, `IoConvert.StrayedHarms`, `IoLimits.OtherFilesBlockFreed` |
| src/libffsp/io.cpp:284-297 | a file with an erase block's worth of zeros is never converted: the loop does not advance | `IoConvert.TruncClin2Ebin`, `IoConvert.StallRepeats`, `IoLimits.HolesStall` |
| src/libffsp/io.cpp:357-363 | shrinking from erase blocks to clusters releases entries behind the pointer table | `Io.EbinToClinLeavesTable` (every such shrink), `Io.TruncData` |
| src/libffsp/eraseblk.cpp:263-280 | freeing a cluster-indirect block that is still open leaves its summary open | `Gc.FreeKeepsSummaries`, `Naming.Create` and the other operations on names (if and only if), `LogLimits.SummaryLeftOpen`; `Mount.Unmount` copes with it |
| src/libffsp/inode_group.cpp:100-112 | a last fragment of 1 to 15 bytes is parsed with bytes behind the cluster | `InodeCodec.ParseGroup`, `InodeCodec.PhantomIsSeen`, `Inodes.LookupNo` (if and only if), `LogLimits.PhantomRoot` |
| src/libffsp/mount.cpp:166-168 | the dirty bit array is sized for 32 numbers to a word, but bitops.hpp keeps 4 | `BitOps.MountedRange` (exactly which numbers lie inside; the last never does) |
| src/libffsp/mount.cpp:175-191 | `unmount` ignores that dirty inodes found no room, and writes a map without them | `Mount.Unmount`; `Mount.MapMountable` (the map can be mounted if and only if none of them lacks a cluster) |
| src/libffsp/mkfs.cpp:152-198 | the rest of the root directory's cluster is not cleared | `Mkfs.Format` (if and only if), `Mkfs.LeftoverWins` |
| src/libffsp/mkfs.cpp:56-68 | with too many erase blocks the inode count wraps around | `MetaData.MkfsFits` (if and only if), `LogLimits.MkfsCountWraps`, `MetaData.MapMisplaced` |

## Model

| member | source | states |
|---|---|---|
| `Allocator.FindEmptyEraseblk` | src/libffsp/eraseblk.cpp:65-75 | the lowest empty block; 0 exactly when there are no more empty blocks than the reserve |
| `Allocator.FindWritableCluster` | src/libffsp/eraseblk.cpp:133-176 | what is handed out is the open block of the type, or an empty one if there is none, and in it the first cluster never written; nothing is handed out only if no block qualifies and the empty blocks are down to the reserve |
| `EraseBlk.CommitKeepsEbInv` | src/libffsp/eraseblk.cpp:178-261 | every commit to a block handed out keeps the allocator invariant: one open block per type, cvalid <= writeops <= E/C, empty and whole-block blocks without counters, never fewer empty blocks than the reserve |
| `Allocator.CommitWriteOperation` | src/libffsp/eraseblk.cpp:178-261 | exactly one usage record changes, no cluster in use changes, and who wrote which cluster is recorded; all allocator, counter and summary invariants are kept |
| `EraseBlk.LiveAdd` | src/libffsp/eraseblk.cpp:133-261 | the cluster a commit of indirect data hands out was not live, is valid afterwards, and its block's cvalid stays at least (or exactly, if it was) the number of live clusters in the block |
| `EraseBlk.LiveDrop` | src/libffsp/inode.cpp:790-816 | invalidating a live cluster: its block's cvalid is positive before, and stays in step with the live clusters |
| `EraseBlk.FreeEbin` | src/libffsp/inode.cpp:790-816 | giving a live whole erase block back makes it empty, keeps the allocator invariant, and disturbs no other live data |
| `IoUnits.RoomLeft` | src/libffsp/eraseblk.cpp:65-75 | as long as there are more empty blocks than the reserve the allocator has room for every type |
| `Summaries.SumAfterOpenCommit` | src/libffsp/eraseblk.cpp:178-261 | a commit that leaves its cluster-indirect block open leaves its summary open with the writer of every cluster, and every finished block's list on disk |
| `Summaries.SumAfterLastCommit` | src/libffsp/eraseblk.cpp:178-261 | a commit that fills such a block stores its list in the last cluster and closes the summary; all other lists stay |
| `Summaries.SummaryReadsBack` | src/libffsp/summary.cpp:127-145 | entry i of a finished block's last cluster is the number of the inode that wrote cluster i |
| `Allocator.CommitIndirectSteps` | src/libffsp/eraseblk.cpp:178-261 | neither opening nor getting the summary yields null, and the disk, summary and usage record become what the commit rules say |
| `IoUnits.WriteInd` | src/libffsp/io.cpp:119-150 | a unit that is all zeros becomes a hole and nothing else happens; any other one is stored in a cluster or block that was not live, reads back, joins the live data, and changes nothing in use; refused only if the allocator has no block left for the type |
| `IoRead.ReadInd` | src/libffsp/io.cpp:165-206 | the bytes returned are the stretch of the byte sequence that the pointer table spells, holes included |
| `IoRead.Read` | src/libffsp/io.cpp:634-664 | read returns what the file holds from the offset on, cut off at the end of file |
| `IoClin.WriteClin` | src/libffsp/io.cpp:434-488 | every unit from the first to the last byte written holds old bytes, user bytes and, behind a write into a hole, stale buffer bytes, as stated; the other units and all other data stay |
| `IoEbin.WriteInPlace` | src/libffsp/io.cpp:518-548 | writing part of an existing erase block cluster by cluster changes just those bytes of the device |
| `IoEbin.WriteEbin` | src/libffsp/io.cpp:490-578 | the same for erase-block pointers: parts of existing blocks in place, everything else in blocks that were empty |
| `IoEmb.WriteEmbOnly` | src/libffsp/io.cpp:365-432 | a write or resize inside the inode gives the spliced bytes |
| `IoEmb.TruncEmb2Ind` | src/libffsp/io.cpp:208-229 | the first unit is stored, the entries between are cleared, and the last entry keeps whatever embedded bytes lie there |
| `IoEmb.WriteEmbInd` | src/libffsp/io.cpp:365-432 | a file that leaves its inode spells the spliced bytes, with a zero-filled gap; for a write all pointers are right, for a truncate all but the last |
| `IoTrunc.InvalidateClin` | src/libffsp/inode.cpp:790-816 | every cluster pointer is taken off its block's counter; no counter underflows |
| `IoTrunc.InvalidateEbin` | src/libffsp/inode.cpp:790-816 | the blocks of all pointers become empty, and nothing else changes |
| `IoTrunc.TruncInd2Emb` | src/libffsp/io.cpp:231-256 | the first bytes of the file move into the inode and all its units are given back |
| `IoTrunc.ShrinkInd` | src/libffsp/io.cpp:317-345 | the file owns exactly the pointers in front of the new end, and the rest is given back |
| `IoConvert.NeverReplaced` | src/libffsp/io.cpp:258-315 | the pointers a window is read through all lie at or behind the entry the window overwrites |
| `IoConvert.MixedWindow` | src/libffsp/io.cpp:258-315 | reading window w through the half converted table gives the bytes the file held before the conversion |
| `IoConvert.ConvertLoop` | src/libffsp/io.cpp:276-297 | the loop ends with one new block per window, each holding the window's old bytes; or it is out of empty blocks; or it has met a window of zeros |
| `IoConvert.StallRepeats` | src/libffsp/io.cpp:284-297 | after a window of zeros the next turn reads the same window of zeros again, so the loop does not end |
| `IoConvert.ConvertUndo` | src/libffsp/io.cpp:286-295 | out of space: the old table is back, and every block taken for the new one is empty again, unless none was taken and the wrapped count comes out positive; exactly then the old cluster pointers are given back as erase blocks, and which blocks that marks empty is stated |
| `IoConvert.UndoCountOfPower` | src/libffsp/io.cpp:286-295 | for every erase block size that divides 2^32 the wrapped count is zero |
| `IoConvert.StrayedHarms` | src/libffsp/io.cpp:286-295 | giving cluster pointers back as erase blocks keeps the allocator invariant and all other data exactly if every block so named was empty, or a whole block of nobody |
| `IoConvert.TruncClin2Ebin` | src/libffsp/io.cpp:258-315 | on success the erase-block view has the bytes of the cluster view with zeros behind them, the old clusters are released, and no window was all zeros; a stall means one was; the undo goes astray exactly if there is no block for the first window, that window is not zeros, and the wrapped count is positive |
| `WriteSpec.RewriteIsSplice` | src/libffsp/io.cpp:434-578 | rewriting units in place of their old ones is a splice of the byte sequence exactly when the gap before the write reads as zeros already and the write does not end in a hole with stale bytes behind it |
| `WriteSpec.WriteCleanSufficient` | src/libffsp/io.cpp:666-746 | that is so when no gap is opened and the write reaches the end of file or ends in an allocated unit |
| `Io.WriteData` | src/libffsp/io.cpp:666-746 | on success size, type tag and table fit each other, the file owns exactly its pointers, and its bytes are the splice exactly under WriteClean, over all six layout transitions; everything of other files stays allocated, counted and unchanged; too large, out of space and the endless conversion each have their cause, and an undo goes astray exactly under a condition on the state before |
| `Io.TruncData` | src/libffsp/io.cpp:580-632 | the same for truncate: the prefix when it shrinks; zero-filled growth exactly under GrowClean; the shrink from erase blocks to clusters exactly by its sizes; growth with a stray last pointer exactly by what that pointer names |
| `Io.StrayMeans` | src/libffsp/io.cpp:208-229 | a file that grows out of its inode into erase blocks and keeps old bytes as its last pointer is still right exactly if those bytes spell a block of zeros that no other file has |
| `Io.StrayClinMeans` | src/libffsp/io.cpp:208-229 | the same for clusters: right exactly if the counters are not exact and the bytes spell a cluster of zeros in use, of no other file, in a block that counts more clusters than are pointed to |
| `Io.EbinToClinLeavesTable` | src/libffsp/io.cpp:317-363 | for every shrink from erase blocks to cluster size, trunc_ind works on entries behind the pointer table |
| `Io.RefusedWhenFull` | src/libffsp/io.cpp:119-150 | a refused write or truncate means that at most as many empty blocks are left above the reserve as a pointer table has entries |
| `IoLimits.WriteIntoHole` | src/libffsp/io.cpp:465-470 | a concrete write after which the file holds bytes of the buffer that nobody wrote |
| `IoLimits.GrowOverOldBytes` | src/libffsp/io.cpp:332-336 | a concrete truncate that shows the old bytes of the last cluster |
| `IoLimits.GrowOutOfInode` | src/libffsp/io.cpp:208-229 | a concrete truncate for which the entry that is not cleared spoils the file |
| `IoLimits.HolesStall` | src/libffsp/io.cpp:284-297 | a concrete file whose conversion meets a window of zeros at once |
| `IoLimits.OtherFilesBlockFreed` | src/libffsp/io.cpp:286-295 | a concrete file in a concrete eb_usage at the reserve: truncating it marks another file's erase block empty |
| `InodeCodec.InodeFitsCluster` | src/libffsp/inode.cpp:77-99 | get_inode_size of every inode that keeps the layout invariant is at most a cluster |
| `InodeCodec.DecodeEncoded` | src/libffsp/inode_group.cpp:45-114 | an inode copied into a cluster is parsed back byte for byte over its get_inode_size, zeros behind |
| `InodeCodec.NormKeepsContent` | src/libffsp/inode_group.cpp:86-114 | an inode read back has the same pointers and the file the same bytes |
| `InodeCodec.ParseGroup` | src/libffsp/inode_group.cpp:86-114 | parsing a packed group gives exactly its inodes still mapped to the cluster, in order, exactly unless the padding ends in a phantom |
| `InodeCodec.PackParse` | src/libffsp/inode_group.cpp:45-114 | the same for a whole cluster as group_inodes leaves it |
| `InodeCodec.PhantomIsSeen` | src/libffsp/inode_group.cpp:97-113 | whether there is a phantom can be told from the bytes read: the last header is cut off within its first 16 bytes and names an inode of the cluster |
| `InodeGroups.GreedyIsLongest` | src/libffsp/inode_group.cpp:62-84 | the group taken is the longest front of the inodes left that fits |
| `InodeGroups.GroupsPartition` | src/libffsp/inode_group.cpp:116-172 | every inode is in exactly one group, in order; groups fit a cluster and are not empty |
| `InodeGroups.ConsecutiveGroups` | src/libffsp/inode_group.cpp:62-172 | two consecutive groups never fit one cluster together |
| `InodeGroups.GreedyIsOptimal` | src/libffsp/inode_group.cpp:62-172 | no partition that keeps the order has fewer groups |
| `InodeGroups.GetInodeGroup` | src/libffsp/inode_group.cpp:62-84 | returns that group and its size, and nulls just its slots |
| `InodeGroups.GroupInodes` | src/libffsp/inode_group.cpp:45-55 | the cluster buffer becomes the packed group, the rest of the buffer stays |
| `InodeGroups.ReadInodeGroup` | src/libffsp/inode_group.cpp:86-114 | the loop computes what parsing yields, or stops at a copy behind its target |
| `InodeLog.DirtyStep` | src/libffsp/inode.cpp:735-763 | a cached inode that changes and is marked dirty keeps map, occupancy, block counters, cache and disk in agreement |
| `InodeLog.UnlinkStep` | src/libffsp/inode.cpp:543-573 | freeing an inode keeps them in agreement exactly if it was not both dirty and on disk |
| `InodeLog.CreateStep` | src/libffsp/inode.cpp:429-466 | so does reserving a number for a new inode |
| `InodeLog.StoreStep` | src/libffsp/inode_group.cpp:130-170 | so does writing a group of dirty inodes to a fresh cluster, and no inode changes |
| `InodeLog.LookupStep` | src/libffsp/inode.cpp:290-314 | so does caching all inodes that live in a cluster together, none of which was cached |
| `InodeLog.ForgetStep` | src/libffsp/inode.cpp:410-427 | so does dropping the cache when nothing is dirty |
| `InodeLog.DataStepKeepsLog` | src/libffsp/io.cpp:119-150 | no step of the data layer disturbs the inode log |
| `InodeLog.LinkStep` | src/libffsp/inode.cpp:507-525 | after link the log holds the current version of every inode exactly if the linked inode was dirty before |
| `InodeLog.LinkLost` | src/libffsp/inode.cpp:507-525 | with nothing dirty, what is left when the cache is gone is the old link count |
| `Inodes.MarkDirty` | src/libffsp/inode.cpp:735-763 | the mark, and occupancy and block counter for an inode newly dirty |
| `Inodes.Update` | src/libffsp/inode.cpp:735-763 | after a change to a cached inode store and data layer are in order, and exactly that inode has changed |
| `Inodes.WriteInodes` | src/libffsp/inode_group.cpp:116-172 | on success the inodes lie in as many clusters as there are greedy groups, group i packed in the i-th, each inode mapped there and clean; no inode and no other data changes; refused only when the allocator has no block left for the type |
| `Inodes.GetDirtyInodes` | src/libffsp/inode.cpp:377-389 | exactly the dirty cached inodes of the kind asked for, each once |
| `Inodes.FlushInodes` | src/libffsp/inode.cpp:391-408 | the abstract inode table stays; forced, nothing is dirty afterwards; successful, fewer than ninoopen are; not due, nothing happens |
| `Inodes.LookupNo` | src/libffsp/inode.cpp:290-314 | returns the current version of the inode; no cached inode is overwritten; all invariants stay, unless the cluster ends in a phantom |
| `Inodes.ReleaseInodes` | src/libffsp/inode.cpp:410-422 | afterwards nothing is cached or dirty and the log alone holds every inode |
| `Inodes.FindFreeInodeNo` | src/libffsp/inode.cpp:124-130 | the lowest free number, or 0 if there is none |
| `Inodes.CreateInode` | src/libffsp/inode.cpp:429-466 | the new inode is in the table under its number, and all invariants stay |
| `Inodes.FreeInode` | src/libffsp/inode.cpp:543-605 | the data layer stays in order and gets the file's units back; the inode log stays in order exactly if the inode was not both dirty and on disk |
| `Inodes.LinkInode` | src/libffsp/inode.cpp:507-525 | link as written: in agreement with the log exactly if the inode is dirty |
| `Volume.OthersKept` | src/libffsp/io.cpp:119-150 | a step that rewrites at most one file's own erase blocks in place leaves every other file's bytes alone |
| `Volume.WriteFile` | src/libffsp/io.cpp:666-738 | a write with flushing, up to its gc: the whole volume stays in order, every other file keeps its bytes, this one's are the splice exactly under WriteClean, and the super block's cluster is untouched; the marks and map entries are what marking the file and flushing make of them; a refused write leaves the other files in order, and the log too but for the cached inode of this one, unless the undo went astray, which is decided exactly |
| `Volume.TruncateFile` | src/libffsp/io.cpp:580-624 | the same for truncate, with the case of a stray pointer that does no harm |
| `Volume.UnlinkFile` | src/libffsp/inode.cpp:543-605 | all other files keep their bytes and data; the volume is in order exactly if the inode was not both dirty and on disk |
| `Volume.CreateFile` | src/libffsp/inode.cpp:429-466 | the file is there under the lowest free number, or there is none; everything else stays |
| `Runs.SafeWriteClean` | src/libffsp/io.cpp:666-746 | a condition on the plain bytes alone under which a write is a splice |
| `Runs.SafeTruncateClean` | src/libffsp/io.cpp:580-632 | the same for truncate |
| `Runs.Run` | src/libffsp/inode.cpp:290-613 | over any run of writes, truncates, unlinks, creates and remounts the files are what the same operations make of a plain map of byte sequences; a run stops early only for a stated cause, and then all files but the one being written or truncated are what the operations before have made of them |
| `Gc.FreeEmptyEraseblks` | src/libffsp/eraseblk.cpp:263-303 | every tracked block without valid clusters, and no other, becomes empty |
| `Gc.FreeKeepsEbInv` | src/libffsp/eraseblk.cpp:263-303 | that keeps the allocator invariant |
| `Gc.FreeKeepsLive` | src/libffsp/eraseblk.cpp:263-303 | and gives up no live data |
| `Gc.FreeKeepsLog` | src/libffsp/eraseblk.cpp:263-303 | and no inode |
| `Gc.FreeKeepsSummaries` | src/libffsp/eraseblk.cpp:263-280 | and keeps the summaries in step exactly if no open cluster-indirect block is without valid clusters |
| `Gc.FreePrunes` | src/libffsp/eraseblk.cpp:263-280 | apart from summaries left open for freed blocks they are in step in any case |
| `Gc.FindCollectableEraseblk` | src/libffsp/gc.cpp:208-234 | a collectable block of the type with the fewest valid clusters, or 0 if there is none |
| `Gc.FindCollectableEbType` | src/libffsp/gc.cpp:196-202 | the first type whose write counter is due, if any |
| `Gc.MoveInodes` | src/libffsp/gc.cpp:244-290 | as written move_inodes moves nothing |
| `Gc.CollectInodes` | src/libffsp/gc.cpp:295-324 | as written it never returns exactly if there is a block to collect |
| `Gc.ResetIsLess` | src/libffsp/gc.cpp:455-461 | resetting the counter of a due type makes one type fewer due |
| `Gc.RunGc` | src/libffsp/gc.cpp:422-463 | as written gc never returns exactly if some inode type is due and has a block to collect; otherwise every counter ends below the threshold and the empty blocks are freed |
| `Gc.CollectGarbage` | src/libffsp/gc.cpp:422-463 | a gc that returns keeps the volume in order exactly if it frees no open cluster-indirect block |
| `Compaction.SettledOf` | src/libffsp/mount.cpp:114-135 | with nothing dirty, occupancy in memory is what a mount would count |
| `Compaction.ReadyCounted` | src/libffsp/mount.cpp:114-135 | a store in order with nothing dirty is ready for a collection, and counting occupancy from the map makes it a store in order again |
| `Compaction.MoveStep` | src/libffsp/gc.cpp:244-290 | moving one cluster with its map entries keeps every inode where the map says, byte for byte, with derived occupancy |
| `Compaction.OccLeftBehind` | src/libffsp/gc.cpp:244-290 | occupancy in memory is wrong after a move, and right again once counted from the map |
| `Compaction.MoveValid` | src/libffsp/gc.cpp:244-290 | move_inodes as meant: the destination fills up or the source is drained |
| `Compaction.CollectValid` | src/libffsp/gc.cpp:295-324 | collect_inodes as meant: every inode is found as before, all data in use keeps its bytes, valid clusters are conserved for every type, no empty block is lost once drained blocks are freed; it ends with a full block or nothing to collect; a destination is missing exactly if the empty blocks are down to the reserve and there is a block to collect |
| `Compaction.RunGcValid` | src/libffsp/gc.cpp:422-463 | gc as meant: one type fewer due in every round, everything as for one collection over all rounds and the freeing; as long as no phantom is met, a destination is missing exactly if there are fewer empty blocks than the reserve and the due types with a block to collect, both counted before the call |
| `Compaction.CompactVolume` | src/libffsp/gc.cpp:422-463 | seen from the files: all of them keep their bytes, and gc as meant can be run again on what it leaves |
| `MetaData.UsageRoundTrip` | src/libffsp/mount.cpp:78-94 | the usage records written at unmount are the ones read at mount |
| `MetaData.MapRoundTrip` | src/libffsp/mount.cpp:96-112 | so is the inode map, if both arrays fill the first erase block |
| `MetaData.MapMisplaced` | src/libffsp/mount.cpp:96-112 | if they end before, some map is not read back |
| `MetaData.MkfsFits` | src/libffsp/mkfs.cpp:56-68 | the inode count mkfs chooses fills the block exactly if the usage records leave any room in it |
| `MetaData.SuperRoundTrip` | src/libffsp/mount.cpp:50-76 | the super block mkfs writes is the geometry mount reads |
| `Mount.CloseEraseblks` | src/libffsp/eraseblk.cpp:305-337 | no block is open afterwards, every summary needed is there and stored, contents and counters stay; a summary left open without a block does no harm |
| `Mount.WriteMetaData` | src/libffsp/eraseblk.cpp:339-364 | both arrays go behind the super block's cluster, through the buffer, and nothing else changes |
| `Mount.Unmount` | src/libffsp/mount.cpp:175-191 | usage records and map on disk equal those in memory, no block open, every inode and file as it was; if dirty inodes found no room the same holds of the arrays, the clean inodes and the data, and the map can be mounted exactly if every dirty inode has a cluster; not reached only if gc never returns |
| `Mount.MapMountable` | src/libffsp/mount.cpp:114-135 | every entry of the map names a cluster on the device exactly if no dirty inode has never been written |
| `Mount.ReadClOccupancy` | src/libffsp/mount.cpp:114-135 | occupancy of every cluster is the number of inodes mapped to it |
| `Mount.Mount` | src/libffsp/mount.cpp:137-173 | the context holds what the device says, and is a volume in order if the device is at rest |
| `Mount.Remount` | src/libffsp/mount.cpp:137-191 | unmount and mount restore usage records and map exactly, with nothing open, cached or dirty, and every file's bytes |
| `Mkfs.SuperEb` | src/libffsp/mkfs.cpp:70-150 | the block put together is the super block, the initial usage records and the initial map |
| `Mkfs.InodeEb` | src/libffsp/mkfs.cpp:152-198 | the root's inode and its two entries are written, and the rest of its cluster is not |
| `Mkfs.Format` | src/libffsp/mkfs.cpp:200-214 | the device is a file system at rest with just the root directory exactly if the rest of the root's cluster was blank and the reserve leaves room |
| `Mkfs.LeftoverWins` | src/libffsp/mkfs.cpp:152-198 | a root inode left behind by an earlier file system is read after the new one |
| `LogLimits.GcStuckHere` | src/libffsp/gc.cpp:244-290 | a concrete mounted state, in order in every respect, in which the next gc does not return |
| `LogLimits.NoDestination` | src/libffsp/gc.cpp:422-463 | a concrete state in order, with a collection due and just the reserve left |
| `LogLimits.DirtyOnDisk` | src/libffsp/inode.cpp:543-573 | a concrete state in which an inode is dirty and on disk, and freeing it makes occupancy wrong |
| `LogLimits.PhantomRoot` | src/libffsp/inode_group.cpp:97-113 | a concrete cluster behind which the buffer is read as a second copy of an inode |
| `LogLimits.SummaryLeftOpen` | src/libffsp/eraseblk.cpp:263-280 | a concrete state in which freeing leaves a summary open without its block |
| `LogLimits.MkfsCountWraps` | src/libffsp/mkfs.cpp:56-68 | concrete parameters for which the inode count wraps around and the map does not fit |
| `BitOps.SetWord` | src/libffsp/bitops.hpp:33-36 | setting a bit changes membership of its own number only, of the four a word holds |
| `BitOps.ClearWord` | src/libffsp/bitops.hpp:39-42 | the same for clearing |
| `BitOps.TestBit` | src/libffsp/bitops.hpp:27-30 | tells membership in the set the array stands for |
| `BitOps.SetBit` | src/libffsp/bitops.hpp:33-36 | adds exactly that number |
| `BitOps.ClearBit` | src/libffsp/bitops.hpp:39-42 | removes exactly that number |
| `BitOps.StatusMap.Mark` | src/libffsp/inode.cpp:735-744 | the counter stays the size of the set |
| `BitOps.StatusMap.Reset` | src/libffsp/inode.cpp:765-774 | the same for a reset |
| `BitOps.MountedRange` | src/libffsp/mount.cpp:166-168 | exactly the numbers below 4 * (nino / 32) have a place in the array mount allocates |
| `Links.LinksAreEntries` | src/libffsp/inode.cpp:132-148 | i_nlink is the number of directory entries naming the inode, "." and ".." included, and a number is free exactly if there is none |
| `Links.CreatedOk` | src/libffsp/inode.cpp:429-466 | creating a file keeps that for every inode |
| `Links.MadeOk` | src/libffsp/inode.cpp:132-192 | so does making a directory, which counts as a link to its parent |
| `Links.LinkedOk` | src/libffsp/inode.cpp:507-525 | so does a further link to a file |
| `Links.LinkedDirMiscounts` | src/libffsp/inode.cpp:507-525 | a link to a directory never does: it counts twice |
| `Links.UnlinkedOk` | src/libffsp/inode.cpp:527-613 | so does removing one entry of a file |
| `Links.UnlinkedDirLost` | src/libffsp/inode.cpp:527-613 | unlinking a directory never does: it is left without a name |
| `Links.RemovedOk` | src/libffsp/inode.cpp:615-692 | so does removing an empty directory |
| `Links.RemovedFile` | src/libffsp/inode.cpp:615-692 | removing a file as an empty directory does exactly if it has one link |
| `Links.EmptyDirFacts` | src/libffsp/inode.cpp:266-288 | an empty directory names nothing, is nobody's parent, and has exactly two links |
| `Links.RemovesItsName` | src/libffsp/inode.cpp:194-241 | the entry removed is the one of the name given exactly if no entry in front of it names the same inode |
| `Links.WrongNameRemoved` | src/libffsp/inode.cpp:194-241 | a directory where it is another one |
| `Links.OnlyName` | src/libffsp/inode.cpp:615-692 | for rmdir it is always the one given |
| `Links.UnlinkedDotsLost` | src/libffsp/inode.cpp:527-613 | unlinking "." or ".." always leaves the tree out of order |
| `Links.RemovedDotsLost` | src/libffsp/inode.cpp:615-692 | so does removing them, if that is not refused |
| `Links.Namespace.Create` | src/libffsp/inode.cpp:429-466 | create and mkdir: exact new names and counts, or no number was free; in order exactly for a plain name |
| `Links.Namespace.Link` | src/libffsp/inode.cpp:507-525 | link: exact new names and counts; in order exactly for a file and a plain name |
| `Links.Namespace.Unlink` | src/libffsp/inode.cpp:527-613 | unlink, "." and ".." included: exact new names and counts, in order exactly for a file; which name goes, exactly |
| `Links.Namespace.Rmdir` | src/libffsp/inode.cpp:615-692 | rmdir, "." and ".." included: refused exactly for a missing name or one that does not pass for an empty directory; else exact new names and counts, in order exactly for a plain name of a directory or of a file with one link |
| `Dentries.DentryReadsBack` | src/libffsp/ffsp.hpp:130-137 | a dentry put together as add_dentry does is found again by its number and name |
| `Dentries.FindDentry` | src/libffsp/inode.cpp:243-264 | the search over the records finds what a search by name over the entries finds |
| `Dentries.IsEmptyDir` | src/libffsp/inode.cpp:266-288 | tells whether no valid entry but "." and ".." is left |
| `Dentries.ClearFirst` | src/libffsp/inode.cpp:194-241 | the records afterwards are the entries with the first one of that number invalidated, or unchanged if there is none |
| `Dentries.NewDirReads` | src/libffsp/inode.cpp:132-148 | the bytes mk_directory writes are the two entries of a new directory |
| `Directories.Tidy` | src/libffsp/gc.cpp:422-463 | the gc at the end of a write never returns exactly if an inode type is due and has a block to collect; otherwise everything is in order but for summaries left open, of which there are none exactly if no cluster-indirect block was open and empty |
| `Directories.RewriteDir` | src/libffsp/io.cpp:666-746 | write of a directory with its gc: it reads as the bytes given whatever its layout becomes, every other file keeps its bytes; refused or endless exactly for the causes stated; gc decided by the usage records the write leaves, and these tied to the state before |
| `Directories.AddDentry` | src/libffsp/inode.cpp:150-192 | the names are the old ones with one further entry, and a link more for a subdirectory; every other file keeps its bytes; how the write and its gc end, exactly |
| `Directories.RemoveDentry` | src/libffsp/inode.cpp:194-241 | the names are the old ones without the first entry of the number, and a link less for a subdirectory; every other file keeps its bytes; how the write and its gc end, exactly |
| `Naming.Create` | src/libffsp/inode.cpp:429-466 | create and mkdir on the volume: exactly the new names and counts of Links, under the lowest free number, or none is free; the tree in order exactly for a plain name; the volume in order exactly if the write left no open empty cluster-indirect block to its gc |
| `Naming.StaleBefore` | src/libffsp/inode.cpp:543-573 | whether an inode is dirty and on disk when it is freed, from the state before: only if it was so then, without a flush always then, and never after a flush that finds room |
| `Naming.LeftBefore` | src/libffsp/eraseblk.cpp:263-280 | for a directory that stays in its inode, whether gc leaves a summary open is decided by the usage records before the call |
| `Naming.Unlink` | src/libffsp/inode.cpp:527-613 | unlink on the volume: refused exactly for a missing name; exactly the names and counts of Links, in order exactly for a file; the volume in order exactly if the inode freed is not dirty and on disk, and gc has no open empty block to free; both tied to the state before |
| `Naming.Rmdir` | src/libffsp/inode.cpp:615-692 | rmdir on the volume: refused exactly for a missing name or bytes that do not pass for an empty directory; exactly the names and counts of Links; order as for unlink |
| `Naming.MarkedBefore` | src/libffsp/inode.cpp:507-525 | whether the inode is dirty when link raises its count, from the state before |
| `Naming.Link` | src/libffsp/inode.cpp:507-525 | link on the volume: exactly the names and counts of Links, in order exactly for a plain name of a file; the volume in order exactly if the inode is dirty then, and gc has no open empty block to free |
| `Naming.RootNames` | src/libffsp/mkfs.cpp:152-198 | the root mkfs writes holds the names a file system starts with, counts right |
| `Sessions.Session` | src/libffsp/inode.cpp:290-692 | over any run of create, mkdir, link, unlink, rmdir, write, truncate and remount, names, link counts and files are what the same operations make of a plain tree; a run stops early only for a stated cause, and then the tree is what is stated |
| `Sessions.DoCreate` | src/libffsp/inode.cpp:429-466 | create with the lookup before it, seen as a step of the tree |
| `Sessions.DoUnlink` | src/libffsp/inode.cpp:527-613 | unlink, the same |
| `Sessions.DoRmdir` | src/libffsp/inode.cpp:615-692 | rmdir, the same |
| `Sessions.DoLink` | src/libffsp/inode.cpp:507-525 | link, the same |
| `Sessions.DoOnFile` | src/libffsp/io.cpp:580-746 | write and truncate, the same: no name, link count or other file changes |
| `Sessions.Begin` | src/libffsp/mkfs.cpp:200-214 | mkfs and mount give a file system in use that has the root directory and no file |
| `Rotation.Gcd` | src/platform/windows/getopt.c:137-150 | the loop computes the specified divisor |
| `Rotation.GcdFacts` | src/platform/windows/getopt.c:137-150 | it divides both numbers, with coprime quotients |
| `Rotation.GcdGreatest` | src/platform/windows/getopt.c:137-150 | every common divisor divides it |
| `Rotation.WalkDistinct` | src/platform/windows/getopt.c:170-187 | the places of one cycle are all different |
| `Rotation.WalkCovers` | src/platform/windows/getopt.c:170-187 | and are all the places of its residue class |
| `Rotation.WalkReturns` | src/platform/windows/getopt.c:170-187 | and after the computed length the cycle is closed |
| `Rotation.PermuteArgs` | src/platform/windows/getopt.c:157-187 | argv is the old one with the two blocks exchanged, each in its old order |
| `Getopt.PartitionedPermutes` | src/platform/windows/getopt.c:322-513 | what a run makes of argv is a permutation of it that keeps argv[0] |
| `Getopt.UnpermutedSplit` | src/platform/windows/getopt.c:345-353 | without permutation the options in front and the rest behind are argv itself |
| `Getopt.Scanner.ParseLongOptions` | src/platform/windows/getopt.c:194-316 | one long option: what is returned, its argument, and how far optind moves |
| `Getopt.Scanner.GetoptLong` | src/platform/windows/getopt.c:322-513 | each call keeps the runs of options and non-options seen so far, and makes progress or is the last |
| `Getopt.Scanner.ParseAll` | src/platform/windows/getopt.c:322-513 | a loop over getopt_long ends with options and their arguments in order before optind, non-options in order from it, and everything after "--" among them |
| `Getopt.ParseOptions` | src/platform/windows/getopt.c:542-549 | the same from the option string and POSIXLY_CORRECT, which also decide whether argv is left alone |

## Left out

- Compaction.CollectValid: models collect_inodes as it is meant, not as it is written; the written one is Gc.CollectInodes. After it the occupancy in memory is wrong, as in the program, and right again only when counted from the map.
- Compaction.RunGcValid: as for Compaction.CollectValid; it checks for a destination where the program would go on with block 0.
- Volume.UnlinkFile: for an inode that is dirty and on disk the call ends after the second decrement; the flush that follows in the program is not modelled.
- Sessions.Session: its operations are those a caller can expect to be clean (Sessions.Safe): plain names, unlink for files and rmdir for directories, counts that do not wrap around, writes that open no gap; every other call is decided by itself in Naming, Volume and Io.
- Volume.CreateFile: starts at the reservation of the number; Naming.Create is the whole call.
- Volume.WriteFile: ends before the gc at the end of write, as Volume.TruncateFile does; Directories.Tidy and Runs.Tidy go on with it. A refused call leaves the cached inode of the file changed in the middle, and nothing is promised of that inode.
- Volume.TruncateFile: for a file that keeps a stray pointer (LeavesStray) it promises the right bytes if the pointer is harmless (StrayHarmless), and otherwise only that the other files are unchanged; that the condition is necessary too is in Io.TruncData.
- Io.WriteData: exact counting of valid clusters is promised only if no existing cluster is overwritten as a whole, because the program does not invalidate that one; otherwise the counter is an upper bound.
- IoEbin.WriteEbin: an erase block replaced as a whole is forgotten by the program, not freed; the model keeps it out of use for ever, as the program does.
- Mount.Remount: a map without some inodes (Lossy) is not mounted here; what the program reads behind cl_occupancy for a map that names no cluster is not modelled.
- Mkfs.Format: for option values that leave room for the inode map in the first erase block (MetaData.MkfsFits); the others are not formatted here.
- Getopt.ParseOptions: abbreviations of long options are up to the lookup function given; messages, optreset and a null option string are not modelled.
- BitOps is not wired into the context, where the dirty inodes are a set: the array mount allocates is too short for it.
- Naming.Create: the inodes concerned have been looked up before, here as in Naming.Link, Naming.Unlink and Naming.Rmdir; walking a path is not modelled. A name has fewer than 248 characters, none of them zero, and two entries fit behind the inode header of a new directory: longer names or smaller clusters make the program write behind its buffers.
- Naming.Create: link counts stay below 2^32 - 1, and in Naming.Link below 2^32 - 2, where the names are stated.
- Directories.RemoveDentry: ends if the directory cannot be written; the program ignores that and goes on.
- Directories.Tidy: summaries that gc leaves open without a block are kept aside until the operation ends, because marking, writing and freeing inodes neither reads nor changes them; the flush of an inode freed while dirty and on disk is left out, as in Volume.UnlinkFile.
- Naming.Rmdir: for a file whose size is a number of whole entries; for another one read_dir writes behind its vector.
- Naming.Link: for an inode without a mark the flush at the end comes before the count is raised; it does not touch that inode.
- What a write, truncate or conversion leaves in the file itself when space runs out in the middle; the bytes of all other files are covered. After an undo that has gone astray (Astray) they are covered at that moment, and so is exactly which blocks are marked empty; what the undo reads behind the pointer table is not modelled.
- I/O errors, file descriptors and io_backend: device accesses are total.
- The endless loop of a stalled conversion or collection: the model ends where the program would spin.
- Garbage collection of cluster-indirect data, which the program has disabled, and rename, which it does not implement.
- Crash recovery: meta data is written at unmount only, and the program promises nothing for a crash.
- Times, owners and permissions are carried along in inodes but not interpreted; path strings, symbolic links, FUSE and the programs around the library.
- neraseopen above 5 and devices of 4 GiB or more, where gcinfo entries are not initialised and 32-bit products wrap around.
