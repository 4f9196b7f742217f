# OS/161 kernel: a verified model in Dafny

The project models the parts of the OS/161 kernel whose correctness spans many
functions, and proves what they promise for every input, every run and every
interleaving. `dafny verify dfyconfig.toml` covers all of it. Nothing here
executes the kernel.

| part | files | source |
|---|---|---|
| SFS, the file system | `SfsLayout`, `Bitmap`, `SfsVolume`, `SfsVnode`, `SfsTable`, `SfsNames`, `SfsDir`, `SfsOps`, `SfsFs`, `Mksfs`, `SfsRun` | `kern/fs/sfs`, `kern/lib/bitmap.c`, `kern/fs/vfs/vnode.c`, `sbin/mksfs` |
| kernel heap | `KheapData`, `Kheap`, `KheapRun` | `kern/lib/kheap.c` |
| containers | `Queue`, `PtrArray` | `kern/lib/queue.c`, `kern/lib/array.c` |
| threads and synchronisation | `Threads`, `ThreadLists`, `Synch` | `thread/thread.c`, `thread/scheduler.c`, `thread/synch.c` |
| protocols on top | `Stoplight`, `StoplightLocks`, `Lhd` | `kern/asst1/stoplight.c`, `kern/dev/lamebus/lhd.c` |
| memory management | `Dumbvm` | `kern/arch/mips/mips/dumbvm.c`, `ram.c` |
| random numbers | `Pseudorand` | `kern/dev/generic/pseudorand.c` |

## How the model is built

Each object whose fields the source updates is a class. Its concrete state is
one immutable record (`s` or `h`) that the methods reassign, beside a ghost
value that says what the record stands for; `Valid()` ties the two. Panics and
assertions of the source are `assert`s, so their absence is part of every
proof. Error returns are values.

**SFS.** The disk is a sequence of 512-byte blocks, and inodes, indirect blocks,
the freemap and directory entries are decoded from those bytes. The ghost value
is the volume: every live inode with its current contents, and the one owner of
every block in use. `SfsOps.Mounted` is the invariant at every call boundary:
freemap bits and owners agree, clean inodes equal their disk blocks, at most one
vnode per inode, distinct names, link counts equal to the number of slots.
`SfsRun.Lifetime` carries it from `mksfs` through any sequence of calls and
remounts, including all that fail with ENOSPC.

**Heap.** Free lists are words in a memory map, next to the data of the blocks
in use. The invariant `Kheap.Good` recovers from that memory the two page lists,
each page's free list and the live blocks.

**Threads.** Code between `splhigh` and `splx` is one step. `mi_switch` is two,
since interrupt handlers run while the scheduler idles inside it. `Synch` puts
semaphores, locks and condition variables on this scheduler; a call that sleeps
ends its step there and goes on when the thread is picked again. `ThreadLists`
runs the same operations on the real ring and arrays, in step with `Threads`,
and says of each when it needs memory.

**Stoplight.** Cars are lock programs, as written in the source. `Traffic` runs
any number of them under an arbitrary choice of who moves next; that the loop
terminates is the proof that every run finishes. `StoplightLocks` runs the same
cars as threads on the locks of `Synch` and proves that each lock call is one of
those moves.

## Where the code does less than its comments or callers expect

Each of these has a failing input or run and the exact condition.

- `array_setsize(a, 0)` throws away storage for more than 16 elements
  (kern/lib/array.c:80-85), and `array_preallocate` grows 0, 2, 6, 14, 30. The
  room for `zombies[]` that `thread_fork` reserves is lost by the next `exorcise`
  once it was for 15 threads or more, so the "should not fail" `array_add` in
  `mi_switch` may need memory after all: `PtrArray.ReserveEmptyAdd`,
  `ThreadLists.ForkAndExit`. It may also with few threads, when they exit one
  after the other and none returns from `mi_switch` to bury them:
  `ThreadLists.ChainOfExits`.
- A ring of n slots holds n - 1 elements, so after `scheduler_preallocate(n)` n
  threads fit exactly when n is not itself a size of the ring (32, 64, ...):
  `Queue.ReserveAndFill`, `ThreadLists.ForkAndYield`.
- `lhd_io` checks `sector + len` in 32 bits. A negative offset wraps around and
  passes, and a sector beyond the disk is issued: `Lhd.SectorsOnDisk`,
  `Lhd.Driver.StartedOnDisk`, `Lhd.NegativeOffset`.
- `ram_stealmem` adds in 32 bits without an overflow check:
  `Dumbvm.StealMemFits`, `Dumbvm.GrantKeeps`, `Dumbvm.OwnedPageGranted`. `kmalloc`
  rounds up to pages in 32 bits too: `Kheap.PagesCover`, `KheapRun.GrantHolds`,
  `KheapRun.RoundUpWraps`, `KheapRun.SumWraps`.
- `sfs_io` computes the end of a read in a 32-bit `off_t`. Where it wraps around,
  the read is not cut at end of file: `SfsVnode.ReadsBelowEof`,
  `SfsOps.ReadPastEnd`.
- `sfs_truncate` keeps one block too many behind the indirect block
  (`blocklen < baseblock+j` where the direct blocks use `i >= blocklen`), and does
  not clear the tail of the last block kept. A later extension of the file shows
  those bytes again: `SfsVnode.PastNewLength`, `SfsOps.CleanTail`,
  `SfsOps.StaleTail`.
- `sfs_io` sets the file size to the offset reached even when a write past the
  end fails or has length zero, so a size can exceed what the block map can
  address, and does exactly after a write issued beyond it:
  `SfsVnode.SizePastMap`, `SfsOps.EmptyWrite`.
- `as_prepare_load` passes on a segment of any size, so the same wrap-around gives
  two processes one page: `Dumbvm.LoadKeeps`, `Dumbvm.SegmentWraps`,
  `Dumbvm.SharedPage`.
- `as_define_region` takes a base of 0 for "not defined yet", so a segment on page
  0 is overwritten by the next call, or fails an assertion in `vm_fault`:
  `Dumbvm.TwoRegions`, `Dumbvm.UserSegments`, `Dumbvm.PageZero`. Its round-up to
  pages wraps around too: `Dumbvm.RegionCovers`.
- `V` asserts that the count did not overflow; it holds exactly below 2^31 - 1:
  `Synch.Synch.V`, `Synch.LastV`.
- `mksfs` marks a freemap bit twice, and stops at an assertion, on a device of
  two blocks; on one whose block count wraps around in the size of the freemap it
  writes none: `Mksfs.Format`. `sfs_domount` panics over a freemap beyond the
  device: `SfsFs.DoMount`.

## Assumptions

Device transfers and `uiomove` succeed in SFS (their error paths are modelled in
`Lhd`); memory for vnodes and address-space structures is available; the root
directory gets no second link; `uio_offset` and lengths given to truncate are
not negative; a mounted volume has as many blocks as its superblock says, and at
most 2^22, as every volume that `mksfs` makes has. In the heap, the memory of a
block is written only by its holder and each pointer is freed once. In `Dumbvm`,
RAM ends at or below 508 MB, as `ram_bootstrap` sees to, and the hardware raises
a fault only where the TLB has no entry or one without the dirty bit. In
`Threads`, `Synch` and `StoplightLocks`, lists have the memory they need;
`ThreadLists` says when that is an assumption.

## Model

| member | source | states |
|---|---|---|
| `SfsLayout.DecodeEncodeInode` | os161/kern/include/kern/sfs.h:45-52 | an inode written to a block reads back as the same inode, waste words included |
| `SfsLayout.EncodeDecodeInode` | os161/kern/include/kern/sfs.h:45-52 | and every block is the image of the inode it reads as, so no byte of a block is lost |
| `SfsLayout.DecodeEncodeDirent` | os161/kern/include/kern/sfs.h:57-60 | a directory entry written into its 64 bytes reads back the same |
| `SfsLayout.NameOfNewEntry` | os161/kern/fs/sfs/sfs_vnode.c:689-692 | the name of a fresh entry is the C string it was made from, for every name shorter than 60 bytes |
| `Bitmap.Bits.Create` | os161/kern/lib/bitmap.c:31-64 | for any number of bits, multiple of 8 or not: nothing is marked, and the leftover bits of the last byte are set |
| `Bitmap.Bits.Alloc` | os161/kern/lib/bitmap.c:73-94 | the least clear bit below nbits is marked and returned; ENOSPC exactly when all are marked; the inner "not found" assertion cannot fire |
| `Bitmap.Bits.Mark` | os161/kern/lib/bitmap.c:108-118 | adds one element to the set of marked bits, keeping the padding |
| `Bitmap.Bits.Unmark` | os161/kern/lib/bitmap.c:121-131 | removes one element and nothing else |
| `Bitmap.Bits.IsSet` | os161/kern/lib/bitmap.c:135-142 | membership in that set |
| `Bitmap.AllocBit` | os161/kern/lib/bitmap.c:73-94 | the same on the byte string that is kept with the file system |
| `SfsVolume.ExactlyOneOwner` | os161/kern/fs/sfs/sfs_vnode.c:60-261 | what the ownership invariant means: a block is in use exactly when something points to it, and then exactly one thing does (superblock and freemap, padding, inode, direct pointer, indirect block, indirect entry) |
| `SfsVolume.OnDevice` | os161/kern/fs/sfs/sfs_vnode.c:62-78 | a block owned by a file lies on the device and is not block 0, so 0 always means a hole |
| `SfsVolume.OneFileChanged` | os161/kern/fs/sfs/sfs_vnode.c:117-261 | changing the pointers of one file in a fresh or its own block keeps ownership and leaves every other file's contents alone |
| `SfsVolume.ShrinkFile` | os161/kern/fs/sfs/sfs_vnode.c:1065-1157 | dropping pointers gives up exactly the blocks they named |
| `SfsVnode.Sfs.Balloc` | os161/kern/fs/sfs/sfs_vnode.c:62-78 | a fresh block, zeroed on disk, that nobody owned, past the metadata and below sp_nblocks (the range panic is unreachable); ENOSPC exactly when no block of the device is free |
| `SfsVnode.Bfree` | os161/kern/fs/sfs/sfs_vnode.c:85-89 | the block must be marked (the unmark assertion holds) and is unmarked alone |
| `SfsVnode.Sfs.Bused` | os161/kern/fs/sfs/sfs_vnode.c:96-103 | whether the freemap has the block; the range panic is unreachable |
| `SfsVnode.Sfs.Bmap` | os161/kern/fs/sfs/sfs_vnode.c:117-261 | the block number of any file block; with allocation, a hole is filled by a zeroed block, invisible to every file's contents; EINVAL exactly past block 142, ENOSPC only with the device full; the "marked free" panics are unreachable |
| `SfsVnode.Sfs.BmapIndirect` | os161/kern/fs/sfs/sfs_vnode.c:171-261 | the same through the indirect block, which may itself have to be allocated first |
| `SfsVnode.Sfs.PartialIo` | os161/kern/fs/sfs/sfs_vnode.c:279-347 | moves exactly the asked-for bytes within one block and no other byte of any file |
| `SfsVnode.Sfs.BlockIo` | os161/kern/fs/sfs/sfs_vnode.c:354-412 | moves exactly one whole block |
| `SfsVnode.BlockOffset` | os161/kern/fs/sfs/sfs_vnode.c:388-392 | the device offset of every block of a mounted volume fits in an off_t |
| `SfsVnode.Sfs.BlockLoop` | os161/kern/fs/sfs/sfs_vnode.c:475-485 | whole blocks one after the other until done or stopped, with the exact count moved |
| `SfsVnode.IoTwice` | os161/kern/fs/sfs/sfs_vnode.c:419-513 | two consecutive transfers are one transfer of the sum |
| `SfsVnode.Sfs.Io` | os161/kern/fs/sfs/sfs_vnode.c:419-513 | a write of n bytes at offset o changes exactly bytes [o, o+n) of that file and sets its size to the larger of the size and the offset reached; stopped by the 143-block limit or a full device it has moved exactly the prefix before that point; a read changes nothing and returns exactly the bytes that the 32-bit arithmetic of the code leaves of the request, holes as zeros, with the right residue |
| `SfsVnode.Sfs.IoRead` | os161/kern/fs/sfs/sfs_vnode.c:419-513 | the read half: the end position in its 32 bits, residue restored, EINVAL only at the size limit |
| `SfsVnode.ReadsBelowEof` | os161/kern/fs/sfs/sfs_vnode.c:428-447 | a read stays below end of file if and only if it starts at or past it, or offset + resid is below 2^31, or the file fills the block map |
| `SfsVnode.SizePastMap` | os161/kern/fs/sfs/sfs_vnode.c:503-510 | after a write the size exceeds what the block map can address if and only if it did before or the write was issued at an offset beyond the map |
| `SfsVnode.TruncationContent` | os161/kern/fs/sfs/sfs_vnode.c:1065-1157 | a truncation keeps the bytes of kept blocks, zeroes the rest of the mapped range and leaves every other file alone |
| `SfsVnode.PastNewLength` | os161/kern/fs/sfs/sfs_vnode.c:1092-1150 | a byte past the new length reads as zero after a later extension if and only if it was zero or lies outside the last block kept and the one the looser test keeps behind it |
| `SfsVnode.LosesIff` | os161/kern/fs/sfs/sfs_vnode.c:1119-1139 | the indirect block goes exactly when no entry of it is left |
| `SfsVnode.TruncationGood` | os161/kern/fs/sfs/sfs_vnode.c:1065-1157 | once exactly the owners of removed pointers are unmarked, freemap, inode cache, disk and ownership agree again |
| `SfsVnode.Sfs.FreeDirect` | os161/kern/fs/sfs/sfs_vnode.c:1092-1099 | the direct pointers from blocklen on are freed and zeroed, the earlier ones untouched |
| `SfsVnode.Sfs.TruncIndirect` | os161/kern/fs/sfs/sfs_vnode.c:1101-1147 | the indirect entries strictly past blocklen are freed; the block is kept, rewritten or freed with them |
| `SfsVnode.Sfs.Truncate` | os161/kern/fs/sfs/sfs_vnode.c:1065-1157 | the bits cleared are exactly the pointers removed, no block below the new length is touched, and the indirect block goes exactly when no entry is left; with the kept set the code decides: direct blocks below blocklen, indirect ones up to and including it |
| `SfsTable.SyncInode` | os161/kern/fs/sfs/sfs_vnode.c:40-51 | a dirty inode reaches its block, a clean one already equals it; nothing else changes |
| `SfsTable.LoadVnode` | os161/kern/fs/sfs/sfs_vnode.c:1547-1651 | at most one vnode per inode: a loaded one gains a reference, another is read from its block; the panics (two copies, unused block, bad type) are unreachable |
| `SfsTable.MakeObj` | os161/kern/fs/sfs/sfs_vnode.c:763-783 | a new inode number nobody used, loaded with no links, its contents all zeros; nothing else changes |
| `SfsTable.TruncatedToZero` | os161/kern/fs/sfs/sfs_vnode.c:858-924 | truncation to length 0 leaves a file with no block but its inode |
| `SfsTable.EraseUnlinked` | os161/kern/fs/sfs/sfs_vnode.c:858-924 | reclaiming a file without links frees its data, its indirect block and its inode block, and nothing else |
| `SfsTable.Decref` | os161/kern/fs/vfs/vnode.c:73-98 | the last reference unloads the vnode, and with the last link gone the file goes too; otherwise only the count changes |
| `SfsNames.SpliceSlot` | os161/kern/fs/sfs/sfs_vnode.c:558-584 | writing one entry changes one slot or appends one, and no other slot |
| `SfsNames.LinkBinds` | os161/kern/fs/sfs/sfs_vnode.c:666-703 | filling a free slot under a new name adds exactly that binding |
| `SfsNames.UnlinkBinds` | os161/kern/fs/sfs/sfs_vnode.c:710-720 | clearing a slot removes exactly its binding |
| `SfsDir.ReadDir` | os161/kern/fs/sfs/sfs_vnode.c:525-550 | the entry in the slot asked for; a directory never ends inside an entry |
| `SfsDir.UsedSlotMapped` | os161/kern/fs/sfs/sfs_vnode.c:525-584 | a slot in use lies in a mapped block, so rewriting it needs no space |
| `SfsDir.WriteDir` | os161/kern/fs/sfs/sfs_vnode.c:558-584 | all or nothing: the slot is written, or no slot changed; EINVAL exactly past slot 1143, ENOSPC only with the device full; overwriting an entry in use cannot fail |
| `SfsDir.FindName` | os161/kern/fs/sfs/sfs_vnode.c:616-658 | the one slot with the name ("only once" holds), or none; a free slot, or none exactly when every slot is in use |
| `SfsDir.DirLink` | os161/kern/fs/sfs/sfs_vnode.c:666-703 | one more binding, or an error and no change: EEXIST exactly for a bound name, ENAMETOOLONG exactly for a new one of 60 bytes or more, EINVAL exactly when all 1144 slots are in use, ENOSPC only with the device full and at most one block taken |
| `SfsDir.DirUnlink` | os161/kern/fs/sfs/sfs_vnode.c:710-720 | the slot becomes free; cannot fail on an entry in use |
| `SfsOps.LiveInodes` | os161/kern/fs/sfs/sfs_vnode.c:858-924 | deferred deletion: an inode exists exactly while it is the root, a vnode for it is loaded, or a slot names it |
| `SfsOps.LinksFit` | os161/kern/fs/sfs/sfs_vnode.c:1245-1379 | a link count never exceeds 1144, so its 16 bits never overflow |
| `SfsOps.Release` | os161/kern/fs/vfs/vnode.c:73-98 | dropping a reference on the mounted file system keeps every name, and deletes the file exactly with its last link and last reference |
| `SfsOps.LookOnce` | os161/kern/fs/sfs/sfs_vnode.c:728-752 | finds the file with a name and loads it, or reports that there is none |
| `SfsOps.Lookup` | os161/kern/fs/sfs/sfs_vnode.c:1418-1436 | succeeds exactly on bound names, with the inode bound; ENOENT and no change otherwise |
| `SfsOps.LinkAt` | os161/kern/fs/sfs/sfs_vnode.c:1245-1264 | name and link count grow together or not at all |
| `SfsOps.Link` | os161/kern/fs/sfs/sfs_vnode.c:1245-1264 | one new binding to the file, or no change of names and the error that DirLink states; contents never change |
| `SfsOps.UnlinkAt` | os161/kern/fs/sfs/sfs_vnode.c:1271-1297 | name and link count shrink together; cannot fail after the lookup |
| `SfsOps.Remove` | os161/kern/fs/sfs/sfs_vnode.c:1271-1297 | one binding goes; the file and its bytes go with it exactly when that was the last link and nobody holds it |
| `SfsOps.Rename` | os161/kern/fs/sfs/sfs_vnode.c:1307-1379 | a successful rename moves one binding to the new name and keeps all others, all contents and all link counts; a failed one changes no name (the "total failure" panic is unreachable); ENOENT exactly for an unbound old name, else the outcome DirLink states for the new one |
| `SfsOps.Creat` | os161/kern/fs/sfs/sfs_vnode.c:1185-1236 | opens the bound file, EEXIST with excl, or makes an empty file under the name with an unused inode; on error names and contents are as before; for a new name ENOSPC on a full device, else the outcome DirLink states, with ENOSPC only if at most two blocks were free |
| `SfsOps.NewFile` | os161/kern/fs/sfs/sfs_vnode.c:763-783 | the name space with one new, still nameless, loaded file |
| `SfsOps.ReadFile` | os161/kern/fs/sfs/sfs_vnode.c:931-936 | EISDIR on the directory, else as Io, and below end of file exactly as ReadsBelowEof says |
| `SfsOps.ReadPastEnd` | os161/kern/fs/sfs/sfs_vnode.c:433-447 | the input that shows it: 0x7fffffff bytes at offset 1 of a file of two bytes read on to the end of the block map and fail there with EINVAL |
| `SfsOps.WriteFile` | os161/kern/fs/sfs/sfs_vnode.c:943-948 | the names stay; only this file's bytes and size change, as Io says; the size is past the block map exactly as SizePastMap says |
| `SfsOps.EmptyWrite` | os161/kern/fs/sfs/sfs_vnode.c:503-507 | the input that shows it: a write of no bytes at offset 100000 makes an empty file 100000 bytes long |
| `SfsOps.TruncateFile` | os161/kern/fs/sfs/sfs_vnode.c:1065-1157 | the names stay; only this file changes, cut as the code decides |
| `SfsOps.CleanTail` | os161/kern/fs/sfs/sfs_vnode.c:1092-1150 | nothing but zeros is left past the new length if and only if the tail that stays mapped held nothing else |
| `SfsOps.StaleTail` | os161/kern/fs/sfs/sfs_vnode.c:1092-1150 | a run that shows it: truncated to 8192 bytes a file keeps byte 8192, in a block only the looser test on the indirect block keeps; truncated to 1 it keeps its second byte |
| `SfsOps.Fsync` | os161/kern/fs/sfs/sfs_vnode.c:1043-1047 | the inode is clean afterwards; names, contents and freemap stay |
| `SfsFs.WriteMap` | os161/kern/fs/sfs/sfs_fs.c:41-73 | the freemap blocks hold the freemap; no file changes |
| `SfsFs.Sync` | os161/kern/fs/sfs/sfs_fs.c:82-145 | afterwards nothing is waiting to be written; names, contents, freemap and loaded vnodes are as before |
| `SfsFs.CleanImage` | os161/kern/fs/sfs/sfs_fs.c:82-145 | with nothing waiting to be written the disk alone is consistent: superblock, freemap and every inode read back |
| `SfsFs.DiskDetermines` | os161/kern/fs/sfs/sfs_fs.c:41-311 | a disk is the image of one volume only: two that are consistent on the same disk have the same inodes, names, contents and block owners |
| `SfsFs.MapBytesUnique` | os161/kern/fs/sfs/sfs_fs.c:41-73 | the freemap read from disk is the freemap that was written |
| `SfsFs.NamesWithoutVnodes` | os161/kern/fs/sfs/sfs_fs.c:167-192 | the name space stands without loaded vnodes if and only if no file is open without a name |
| `SfsFs.DoMount` | os161/kern/fs/sfs/sfs_fs.c:210-311 | EINVAL exactly on a wrong magic number; a panic exactly on a device without a superblock or with a freemap block beyond its end; otherwise the freemap is read back, as many blocks as the superblock says in 32 bits, and nothing is loaded; on a consistent disk the result is the volume on it |
| `SfsFs.Unmount` | os161/kern/fs/sfs/sfs_fs.c:167-192 | EBUSY exactly with vnodes loaded; the clean-flag assertions hold after a sync |
| `SfsFs.Remount` | os161/kern/fs/sfs/sfs_fs.c:41-311 | sync, unmount, and mount of whatever volume the disk is the image of: the same freemap, names and file contents |
| `Mksfs.DoAllocBit` | os161/sbin/mksfs/mksfs.c:77-84 | marks one bit, or finds it marked (the assertion fails) and changes nothing |
| `Mksfs.MarkInitial` | os161/sbin/mksfs/mksfs.c:88-114 | with three blocks or more no bit is marked twice, and the marked ones are the metadata, the root inode and the padding; with two the assertion in doallocbit fails |
| `Mksfs.WriteBitmap` | os161/sbin/mksfs/mksfs.c:88-114 | the freemap goes to its own blocks and nowhere else |
| `Mksfs.InitialImage` | os161/sbin/mksfs/mksfs.c:40-114 | superblock, root inode and freemap together satisfy the on-disk invariant |
| `Mksfs.Format` | os161/sbin/mksfs/mksfs.c:40-165 | for every block count below 2^32: succeeds exactly for a short enough name, at least three blocks and at most 32 freemap blocks as counted in 32 bits; the result is a mountable volume with no names, carrying the volume name, exactly up to 131072 blocks; data blocks are not touched |
| `SfsRun.GetRoot` | os161/kern/fs/sfs/sfs_vnode.c:1658-1670 | the root directory, loaded; its type assertion holds |
| `SfsRun.Step` | os161/kern/fs/sfs/sfs_vnode.c:1474-1539 | every call keeps the invariant, including every error path |
| `SfsRun.Lifetime` | os161/sbin/mksfs/mksfs.c:117-165 | from mksfs on, through any number of sessions of any calls and remounts, every state reached satisfies the invariant and has at most 131072 blocks |
| `SfsRun.BlockAccounting` | os161/kern/fs/sfs/sfs_vnode.c:60-261 | in every such state each bit of the freemap, the padding included, is set exactly when the block is used, and used by exactly one owner |
| `KheapData.Pigeonhole` | os161/kern/lib/kheap.c:528-529 | a free list of distinct blocks has at most PAGE_SIZE/size entries, and that many only if every block is free |
| `KheapData.AllocPageRef` | os161/kern/lib/kheap.c:110-133 | the least unused descriptor is marked; NULL exactly when all 256 are in use; "assert(0)" unreachable |
| `KheapData.FreePageRef` | os161/kern/lib/kheap.c:135-148 | the descriptor, which was in use, is unmarked alone |
| `KheapData.Unlink` | os161/kern/lib/kheap.c:309-330 | removes one descriptor from an intrusive list and keeps the order of the rest |
| `Kheap.BlockTypeOf` | os161/kern/lib/kheap.c:332-348 | the smallest class that fits; the panic is unreachable |
| `Kheap.FillDeadbeef` | os161/kern/lib/kheap.c:6-16 | every word of the block, and nothing outside it |
| `Kheap.StringBlocks` | os161/kern/lib/kheap.c:434-450 | the free list of a fresh page runs through every block, last to first |
| `Kheap.RemoveLists` | os161/kern/lib/kheap.c:309-330 | the descriptor leaves both lists and both stay in order |
| `Kheap.LiveDisjoint` | os161/kern/lib/kheap.c:350-577 | two live blocks never overlap |
| `Kheap.LiveFits` | os161/kern/lib/kheap.c:332-460 | a live block is aligned to its class, at least as large as asked for, and clear of every large block |
| `Kheap.Heap.DoAlloc` | os161/kern/lib/kheap.c:380-406 | the first free block of a page becomes live; the three assertions hold |
| `Kheap.Heap.NewPage` | os161/kern/lib/kheap.c:409-459 | a page joins both lists wholly free; fails exactly without a page or a descriptor, changing nothing |
| `Kheap.Heap.SubpageKmalloc` | os161/kern/lib/kheap.c:350-460 | a new live block of the right class; NULL exactly when no page of that class has a free block and no new page can be had |
| `Kheap.Heap.FreeBlock` | os161/kern/lib/kheap.c:500-528 | the block is wiped and heads its page's free list; nothing outside it changes |
| `Kheap.Heap.ReturnPage` | os161/kern/lib/kheap.c:529-534 | a wholly free page leaves both lists and is given back with its descriptor |
| `Kheap.Heap.FindPage` | os161/kern/lib/kheap.c:481-498 | the page that holds the pointer, or none for a large block |
| `Kheap.Heap.SubpageKfree` | os161/kern/lib/kheap.c:462-540 | tells small blocks from large ones and frees the small; the positioning panic and the count assertion cannot fire |
| `Kheap.Heap.Kmalloc` | os161/kern/lib/kheap.c:545-563 | a fresh block of the size asked for; every byte of every other block keeps its value; NULL changes nothing; a size whose 32-bit round-up is 0 pages gets the address of the next page with nothing reserved |
| `Kheap.PagesCover` | os161/kern/lib/kheap.c:552-554 | the pages asked for hold the block if and only if the round-up to pages stays below 2^32; if not, there are none |
| `Kheap.Heap.Kfree` | os161/kern/lib/kheap.c:565-577 | exactly that block goes; every byte of every other block keeps its value; the alignment assertion holds |
| `Kheap.StoreKeeps` | os161/kern/lib/kheap.c:66-76 | writing anywhere inside a block one holds never damages a free list, though the lists live in the same memory |
| `KheapRun.PageBalance` | os161/kern/lib/kheap.c:378-406 | on every page live blocks plus nfree is PAGE_SIZE/size |
| `KheapRun.AllReturned` | os161/kern/lib/kheap.c:528-534 | with no small block live, both kinds of list are empty and every page and descriptor has been returned |
| `KheapRun.BumpIsFresh` | os161/kern/arch/mips/mips/ram.c:63-77 | the bump allocator keeps the page source's promise for every request that does not wrap |
| `KheapRun.GrantHolds` | os161/kern/lib/kheap.c:545-563 | a large block that is granted lies below the new firstpaddr, clear of all later grants, if and only if neither the round-up nor the sum in ram_stealmem wraps around |
| `KheapRun.RoundUpWraps` | os161/kern/lib/kheap.c:545-563 | the case sz = 0xfffff001: an address with nothing behind it, and the next page allocated is at that address |
| `KheapRun.SumWraps` | os161/kern/arch/mips/mips/ram.c:63-77 | the case sz = 0xfffff000: firstpaddr moves back a page, and the second page granted afterwards is the block itself |
| `KheapRun.Program` | os161/kern/lib/kheap.c:545-577 | any program that frees each block once and writes in its own blocks, up to the first request that wraps around in the page source and is granted: the invariant holds throughout, and holding nothing means the heap holds nothing |
| `Queue.Queue.Grow` | os161/kern/lib/queue.c:17-51 | same contents in a ring of at least the target size; the copying never grows again, which is why grow and addtail terminate; ENOMEM changes nothing |
| `Queue.Queue.Preallocate` | os161/kern/lib/queue.c:70-81 | a ring doubled until it has n slots, or ENOMEM; contents unchanged |
| `Queue.Queue.AddTail` | os161/kern/lib/queue.c:90-108 | appends, through wrap-around and growth; needs memory exactly when all slots but one are taken |
| `Queue.Queue.RemHead` | os161/kern/lib/queue.c:110-121 | takes the first element |
| `Queue.Queue.IsEmpty` | os161/kern/lib/queue.c:83-88 | whether the sequence is empty |
| `Queue.Conserved` | os161/kern/lib/queue.c:90-121 | over any history, what came out followed by what is inside is what was there plus what went in, in order |
| `Queue.BoundedWaiting` | os161/thread/scheduler.c:87-118 | an element with k ahead of it is handed out by the (k+1)-th removal, whatever is added meanwhile |
| `Queue.Replay` | os161/kern/lib/queue.c:17-121 | the ring buffer behaves as that FIFO over any sequence of events |
| `Queue.SpareSlot` | os161/kern/lib/queue.c:70-108 | reserving n slots leaves one to spare if and only if n is not a size of the ring: 32, 64 and so on |
| `Queue.ReserveAndFill` | os161/thread/scheduler.c:41-46 | after scheduler_preallocate(n) n threads fit without further memory if and only if n is not such a size |
| `Queue.RoundIt` | os161/thread/scheduler.c:41-46 | for instance 31 and 33 fit, and 32 do not |
| `PtrArray.PtrArray.Preallocate` | os161/kern/lib/array.c:42-65 | same elements, room grown by the exact rule: from nothing 2, 6, 14, 30 and so on |
| `PtrArray.PtrArray.SetSize` | os161/kern/lib/array.c:67-89 | the common prefix stays; emptying an array with room for more than 16 drops its storage |
| `PtrArray.PtrArray.Add` | os161/kern/lib/array.c:99-114 | appends; needs memory exactly when num equals max |
| `PtrArray.PtrArray.Remove` | os161/kern/lib/array.c:116-127 | one element goes, the others keep their order |
| `PtrArray.GrownTwice` | os161/kern/lib/array.c:42-65 | one reservation after another is the larger of the two |
| `PtrArray.ReserveEmptyAdd` | os161/thread/thread.c:311-325 | room reserved in a new array, call after call, outlives emptying it if and only if the largest reservation was for 1 to 14 elements |
| `PtrArray.FourteenAndFifteen` | os161/kern/lib/array.c:67-89 | for instance room for 14 stays and room for 15 does not |
| `Threads.MoveWaiting` | os161/thread/thread.c:592-619 | the loop that removes while it walks splits the list into waiting and others, each in order |
| `Threads.Threads.Fork` | os161/thread/thread.c:311-372 | one more thread, last in the run queue, and counted; or ENOMEM and no change |
| `Threads.Threads.Yield` | os161/thread/thread.c:398-454 | the current thread goes to the end of the run queue; nothing happens while the scheduler idles |
| `Threads.Threads.Sleep` | os161/thread/thread.c:578-586 | the current thread goes to the end of sleepers[] with its address |
| `Threads.Threads.Exit` | os161/thread/thread.c:493-551 | one live thread fewer, one more zombie; numthreads > 0 holds |
| `Threads.Threads.Wakeup` | os161/thread/thread.c:592-619 | exactly the sleepers on the address become runnable, in the order they slept; the others keep their order |
| `Threads.Threads.OneWakeup` | os161/thread/thread.c:621-650 | exactly the longest sleeper on the address becomes runnable |
| `Threads.Threads.Exorcise` | os161/thread/thread.c:141-156 | every zombie is destroyed, each once, never the current thread |
| `Threads.Threads.Dispatch` | os161/thread/thread.c:456-484 | the head of the run queue runs and continues where it left off; it is never a thread that has exited, so "came back from the dead" is unreachable |
| `Threads.SleepJoins` | os161/thread/thread.c:442-448 | going to sleep joins the end of one waiting line and no other |
| `Threads.WakeupEmpties` | os161/thread/thread.c:592-619 | a wakeup empties one waiting line and leaves all others as they were |
| `Threads.OneWakeupAdvances` | os161/thread/thread.c:621-650 | a single wakeup takes the first of one line and leaves all others as they were |
| `Threads.Execute` | os161/thread/thread.c:398-650 | over any run every thread ever made is in exactly one of current, run queue, sleepers, zombies or gone, numthreads is the total of the first three, and a ready thread with k ahead of it is the (k+1)-th picked |
| `ThreadLists.Store.MoveAll` | os161/thread/thread.c:592-619 | the same walk on the real array and ring, needing memory exactly if the ready threads come to fill the ring |
| `ThreadLists.Store.Exorcise` | os161/thread/thread.c:141-156 | emptying zombies[] needs no memory and gives up room for more than 16 |
| `ThreadLists.Lists.Fork` | os161/thread/thread.c:311-372 | fails exactly when one of its reservations does, and then changes no list; its own make_runnable never needs memory |
| `ThreadLists.Lists.Yield` | os161/thread/thread.c:434-440 | needs memory exactly when the other live threads are all ready and leave the ring one slot |
| `ThreadLists.Lists.Sleep` | os161/thread/thread.c:442-448 | needs memory exactly in the first sleep of the first thread, before any fork |
| `ThreadLists.Lists.Exit` | os161/thread/thread.c:449-452 | needs memory exactly when zombies[] is full |
| `ThreadLists.Lists.Wakeup` | os161/thread/thread.c:592-619 | needs memory exactly when all live threads are ready afterwards and there are as many as the ring has slots |
| `ThreadLists.Lists.OneWakeup` | os161/thread/thread.c:621-650 | the longest sleeper becomes runnable; needs memory exactly when one is left over for the last slot |
| `ThreadLists.Lists.Dispatch` | os161/thread/thread.c:456-484 | needs no memory |
| `ThreadLists.WhenNeeded` | os161/thread/thread.c:434-452 | in every reachable state a call that makes threads runnable needs memory only with 32, 64, ... live threads, and a sleep only while one thread is alone |
| `ThreadLists.Execute` | os161/thread/thread.c:311-650 | any run on the real lists, up to the first call that needs memory and has none, is the run of the thread system |
| `ThreadLists.FirstSleep` | os161/thread/thread.c:443-447 | a failing run: the boot thread sleeps before it has forked |
| `ThreadLists.ForkAndYield` | os161/thread/thread.c:434-440 | with n threads, all ready, yield fails without memory if and only if n is 32, 64 and so on |
| `ThreadLists.ForkAndExit` | os161/thread/thread.c:449-454 | with n threads, after one came back to the processor, exit fails without memory if and only if n is 15 or more |
| `ThreadLists.ChainOfExits` | os161/thread/thread.c:449-454 | a failing run with never more than three live threads: seven in a row exit before any returns from mi_switch |
| `Synch.Synch.P` | os161/thread/synch.c:66-87 | takes a count, or sleeps with the count zero |
| `Synch.Synch.V` | os161/thread/synch.c:89-98 | adds one and wakes everyone asleep on this semaphore, in order; its assertion holds if and only if the count was below 2^31 - 1 |
| `Synch.LastV` | os161/thread/synch.c:89-98 | the input that fails: a V on a semaphore whose count is 2^31 - 1 |
| `Synch.Synch.Acquire` | os161/thread/synch.c:220-231 | the lock becomes the caller's, or it sleeps with the lock taken |
| `Synch.Synch.Release` | os161/thread/synch.c:233-244 | the lock is free and everyone asleep on it gets to try again; the interrupt level is restored to what it was |
| `Synch.Synch.CvWait` | os161/thread/synch.c:292-304 | release and sleep are one step: when it ends the lock is free and the caller is already last in the line, so a later signal cannot miss it |
| `Synch.Synch.CvSignal` | os161/thread/synch.c:306-313 | exactly the longest waiter becomes runnable |
| `Synch.Synch.CvBroadcast` | os161/thread/synch.c:315-322 | exactly all waiters become runnable, in waiting order |
| `Synch.Synch.Switch` | os161/thread/synch.c:80-86 | a woken thread looks again: it returns from P with a count, from acquire and wait owning the lock, or sleeps again, and which of these is decided by the state |
| `Synch.Synch.MutualExclusion` | os161/thread/synch.c:220-244 | at most one thread is between acquire and release |
| `Synch.Synch.NoStrandedSleeper` | os161/thread/synch.c:66-98 | whoever sleeps on a semaphore or lock finds the count zero or the lock taken at that very moment |
| `Synch.Execute` | os161/thread/synch.c:66-322 | every interleaving, up to a V whose assertion fails, keeps all this, with count = initial + Vs - Ps; and whoever waits on a condition variable stays in its line until it is signalled |
| `Stoplight.ProgramIs` | os161/kern/asst1/stoplight.c:121-546 | the twelve hand-written lock programs are one uniform program |
| `Stoplight.OpEffect` | os161/kern/asst1/stoplight.c:121-485 | at every point of every program: one acquires what one does not hold, releases what one holds, and the locks held are as recorded |
| `Stoplight.StepGood` | os161/thread/synch.c:220-244 | every move by any car keeps owners and cars in step; the owner assertion in lock_release holds |
| `Stoplight.RegionExclusive` | os161/kern/asst1/stoplight.c:121-485 | each region holds at most one car |
| `Stoplight.AtMostTwoInside` | os161/kern/asst1/stoplight.c:121-485 | at most two cars are inside |
| `Stoplight.NoDeadlock` | os161/kern/asst1/stoplight.c:121-485 | a car inside that sleeps waits for one that can move: around four regions two cars cannot wait for each other |
| `Stoplight.SomeoneMoves` | os161/kern/asst1/stoplight.c:121-485 | while some car has not finished, some car can move |
| `Stoplight.StepProgress` | os161/kern/asst1/stoplight.c:121-485 | every move does an operation or puts a car to sleep: a measure that cannot decrease forever |
| `Stoplight.Traffic` | os161/kern/asst1/stoplight.c:508-608 | for any number of cars, any routes and any order of moves, the run ends with every car through and every lock free |
| `StoplightLocks.CarStep` | os161/thread/synch.c:220-244 | a call of lock_acquire or lock_release by the thread of a car is the next step of that car, whether it gets the lock, sleeps, or wakes the others |
| `StoplightLocks.SwitchStep` | os161/thread/synch.c:220-231 | a thread back from its sleep that tries its lock again is the next step of its car; any other context switch is none |
| `StoplightLocks.NeverIdle` | os161/thread/scheduler.c:87-105 | the scheduler finds nobody to run only when every car is through, every lock is free and nobody sleeps |
| `StoplightLocks.Traffic` | os161/kern/asst1/stoplight.c:508-608 | createcars on the kernel threads and locks, with the round-robin run queue and timer interrupts anywhere: the run ends with every car through and every lock free |
| `Lhd.MaskDropsFlag` | os161/kern/dev/lamebus/lhd.c:21-28 | the write flag never hides or fakes a device state |
| `Lhd.SectorsOnDisk` | os161/kern/dev/lamebus/lhd.c:176-218 | every sector of an accepted call is below d_blocks if and only if the sum in the bounds check did not wrap around |
| `Lhd.WrapMeansNegative` | os161/kern/dev/lamebus/lhd.c:176-218 | on any disk below 0xffc00000 sectors an accepted call wraps if and only if its offset is negative, and then its first sector is off the disk |
| `Lhd.NegativeOffset` | os161/kern/dev/lamebus/lhd.c:176-218 | the run that shows it: one sector at offset -512 is let in, and the device is started on sector 0xffffffff |
| `Lhd.Driver.Enter` | os161/kern/dev/lamebus/lhd.c:172-200 | a call is refused with EINVAL exactly by the checks; an empty one returns at once; any other starts its first round |
| `Lhd.Driver.TakeClear` | os161/kern/dev/lamebus/lhd.c:202-203 | one thread gets the device |
| `Lhd.Driver.Start` | os161/kern/dev/lamebus/lhd.c:205-221 | the device was idle; it now works on the thread's own sector, on the disk or not, with its own data |
| `Lhd.Driver.Irq` | os161/kern/dev/lamebus/lhd.c:85-104 | a completion is recorded once, the done count going to 1; any other interrupt changes nothing |
| `Lhd.Driver.TakeDone` | os161/kern/dev/lamebus/lhd.c:223-227 | the result read is that of the thread's own request |
| `Lhd.Driver.Leave` | os161/kern/dev/lamebus/lhd.c:229-243 | a successful read returns what the disk holds at that sector, a successful write has put its data there; a failed copy out, or any error, ends the call; success leads to the next round or, with all sectors on the disk, to the end |
| `Lhd.Driver.OneAtATime` | os161/kern/dev/lamebus/lhd.c:172-247 | at most one request is outstanding, and neither semaphore exceeds 1 |
| `Lhd.Driver.NeverStuck` | os161/kern/dev/lamebus/lhd.c:172-247 | while a thread is inside, some thread can go on, the device is working or its interrupt is due |
| `Lhd.Driver.StartedOnDisk` | os161/kern/dev/lamebus/lhd.c:190-221 | in any run, every sector given to the device for a call is below d_blocks if its sum did not wrap around, and on disks below 0xffc00000 sectors only if |
| `Lhd.Driver.FinishedOnDisk` | os161/kern/dev/lamebus/lhd.c:199-246 | in any run and on any disk, a call that returned 0 did not wrap, and all its sectors are on the disk |
| `Lhd.Execute` | os161/kern/dev/lamebus/lhd.c:72-247 | all this over any interleaving of threads with any calls, device and interrupts, spurious ones included |
| `Dumbvm.StealMemFits` | os161/kern/arch/mips/mips/ram.c:63-77 | the pages handed out are as many as asked for and within RAM if and only if the 32-bit sum does not wrap |
| `Dumbvm.StealMemWraps` | os161/kern/arch/mips/mips/ram.c:63-77 | an input that fails: 0xfffff pages at 8192 are granted, and firstpaddr goes back to 4096 |
| `Dumbvm.GrantKeeps` | os161/kern/arch/mips/mips/ram.c:63-77 | after a request every page handed out lies below firstpaddr if and only if the sum did not wrap around or the request was refused |
| `Dumbvm.LoadKeeps` | os161/kern/arch/mips/mips/dumbvm.c:236-259 | the same for the three requests of as_prepare_load together, whether they succeed or end in ENOMEM: if and only if neither region's sum wraps around and is granted |
| `Dumbvm.SegmentWraps` | os161/kern/arch/mips/mips/dumbvm.c:197-259 | an input that fails: a segment of 0xffffe000 bytes at 0x1000 is granted at 12288, and firstpaddr falls to 4096 |
| `Dumbvm.SharedPage` | os161/kern/arch/mips/mips/dumbvm.c:197-259 | what is lost: a run in which two address spaces get the same physical page |
| `Dumbvm.OwnedPageGranted` | os161/kern/arch/mips/mips/ram.c:63-77 | what is lost at that input: a page in use is the next one granted |
| `Dumbvm.SpacesDisjoint` | os161/kern/arch/mips/mips/dumbvm.c:236-259 | no physical page backs two address spaces |
| `Dumbvm.PhysInjective` | os161/kern/arch/mips/mips/dumbvm.c:121-133 | one physical address is one virtual address of one address space |
| `Dumbvm.RegionCovers` | os161/kern/arch/mips/mips/dumbvm.c:197-234 | for every 32-bit base and size: the pages of a region cover what was asked for if and only if the round-up does not wrap around, and then with no page more |
| `Dumbvm.TwoRegions` | os161/kern/arch/mips/mips/dumbvm.c:217-233 | for every base and size: a third call is refused, and both regions are there, if and only if neither segment is on page 0; a first segment on page 0 is overwritten by the second call, a second one by the third |
| `Dumbvm.UserSegments` | os161/kern/arch/mips/mips/dumbvm.c:100-106 | for segments in user space that are not empty the assertions of vm_fault hold if and only if neither is on page 0 |
| `Dumbvm.PageZero` | os161/kern/arch/mips/mips/dumbvm.c:100-106 | a run that fails: a second segment on page 0, and the first fault panics |
| `Dumbvm.Vm.Activate` | os161/kern/arch/mips/mips/dumbvm.c:181-195 | no TLB entry is valid |
| `Dumbvm.Vm.Fault` | os161/kern/arch/mips/mips/dumbvm.c:62-154 | succeeds exactly on a mapped page with a free TLB slot, and the entry equals the translation; an assertion on the address space fails exactly if a region is empty or starts at 0; the panic over a read-only page is unreachable |
| `Dumbvm.Vm.GetPpages` | os161/kern/arch/mips/mips/dumbvm.c:27-40 | for every count exactly what ram_stealmem answers; if the sum does not wrap around, or the request is refused, the next pages in order, or 0 exactly when there are not enough |
| `Dumbvm.Vm.PrepareLoad` | os161/kern/arch/mips/mips/dumbvm.c:236-259 | for regions of any base and size exactly the three grants of ram_stealmem; unless one wraps around, pages of its own for all three parts, or ENOMEM exactly when they do not fit |
| `Dumbvm.Memmove` | os161/kern/arch/mips/mips/dumbvm.c:301-311 | copies a range and changes nothing else |
| `Dumbvm.Vm.Copy` | os161/kern/arch/mips/mips/dumbvm.c:277-315 | the child sees what the parent sees at every address, in pages of its own; everyone else sees what they saw; ENOMEM exactly when the three parts do not fit |
| `Dumbvm.Vm.Store` | os161/kern/arch/mips/mips/dumbvm.c:138-148 | a store through the TLB changes that address for that process and nothing else for anyone, so parent and child are isolated |
| `Dumbvm.Execute` | os161/kern/arch/mips/mips/dumbvm.c:27-315 | over any run, with segments of any base and size and any request for pages, up to the first operation that a wrap-around or an assertion breaks, address spaces stay disjoint and every valid TLB entry equals the translation |
| `Pseudorand.Schrage` | os161/kern/dev/generic/pseudorand.c:26-32 | the branchy 32-bit computation is 16807 * seed mod 2^31 - 1, and never 0 |
| `Pseudorand.Permutation` | os161/kern/dev/generic/pseudorand.c:15-39 | the step is a permutation of 1 .. 2^31 - 2, undone by multiplying with 1407677000 |
| `Pseudorand.Generator.Random` | os161/kern/dev/generic/pseudorand.c:20-39 | no intermediate overflows; the new seed is that product; the output is in 0 .. randmax |
| `Pseudorand.Outputs` | os161/kern/dev/generic/pseudorand.c:20-48 | over any run the k-th output is 16807^k * seed mod 2^31 - 1, less one, and in range |

## Left out

- SfsVnode.Sfs.Io: the uio is passed and returned as a value, and iovecs and user-space copies are one buffer.
- SfsTable.Decref: the open count of a vnode is not kept; reclaim is driven by references alone, as in the source.
- SfsOps.Creat, SfsOps.Lookup and the other name operations: called on the root directory, the only one SFS can have; the ENOTDIR stubs in the table of file operations would only add constants.
- SfsFs.DoMount: the sector-size test (ENXIO) and the warning about the block count are not modelled.
- Mksfs.Format: the colon and slash rules for volume names are string handling and left out; a write beyond the device ends the program.
- Bitmap.AllocBit, SfsVnode.State: the freemap is kept as its bytes and vnodes by their place in the table, so that aliasing between vnode pointers is not represented.
- Kheap.Heap.Kmalloc: memory is one cell per address; the source's 32-bit words at block starts are cells at those addresses.
- KheapRun.Program, Dumbvm.Execute: nothing is said of a run after a request that the page source grants although it wraps around, since neither the heap nor the address spaces are in order then (KheapRun.GrantHolds, Dumbvm.GrantKeeps and Dumbvm.LoadKeeps are the exact conditions).
- Queue.Queue.Grow, PtrArray.PtrArray.Preallocate: sizes are unbounded integers; the source's int would overflow at 2^31 elements.
- Synch.Synch.V: nothing is said of the state after its assertion has failed.
- Threads.Threads.Exit: the wakeup of the menu thread, the address space and the working directory of the exiting thread.
- ThreadLists.Lists.Yield, ThreadLists.Lists.Sleep, ThreadLists.Lists.Exit, ThreadLists.Lists.Wakeup: nothing is said of the state after an assertion has failed.
- Threads.Threads.Fork: the process table, stacks and the machine-dependent set-up of a new thread.
- Stoplight.Traffic: the messages printed, and any claim about who goes first at an entry, which wake-all locks do not give.
- Lhd.Driver.Start: one sector's contents are one value.
- Dumbvm.Vm.PrepareLoad: its three page requests are taken as one step; the interrupt level that vm_fault leaves raised when there is no address space is not represented.
- Pseudorand.Generator.Random: the byte extraction of pseudorand_read is left out; that the period is full is not claimed.
- The newer vm.c and addrspace.c, system calls and processes, emufs, the VFS name tables and path parsing, the console and other devices, traps and assembly, Pcat and Pmouse, user programs.
