# rCore kernel and easy-fs: a verified model

This project models three parts of the rCore tutorial operating system in Dafny and proves what each
part is for, over every input and every run.

**easy-fs**, the indexed-inode file system over a write-back block cache. The disk is a sequence of
512-byte blocks; inodes, directory entries, bitmaps and the super block are bytes in those blocks. A
file's blocks are found through 27 direct entries and three index trees. The growth code, the lookup
code, the closed-form block count and the clearing code each encode that tree on their own; here all of
them are tied to one definition, the pre-order list of a file's blocks. The end result is that any run
of creates, writes and clears on a formatted device is the same run on an abstract volume, a list of
names with a sequence of bytes each, and that mounting the device again finds that volume.

**Sv39 memory management**: the frame allocator, page tables in physical frames, mapped areas, address
spaces and their copy for fork. A page table is a finite map from virtual pages to entries; the hardware
walk of the RISC-V Privileged Architecture specification (version 20211203, sections 4.3.2 and 4.4)
agrees with it. Any number of address spaces in one memory behave as independent maps from pages to flags
and bytes, over every run of insertions, removals, forks, stores and deallocations for which there are frames
when they happen, while they share out exactly the frames in use. How many frames that takes is exact.

**The process life cycle**: dispatch, suspension, blocking console reads, fork, exit with reparenting and
waitpid, with the strong counts of the reference-counted task control blocks modelled explicitly. The
tasks form a tree at all times, every strong count is the number of handles, each task is reaped at most
once with the exit code it left, scheduling is round robin, and every task has its own kernel stack and,
while it lives, its own address space: at fork the parent's pages and bytes but for two words of the trap
context, then untouched by anyone else. Kernel and tasks share one physical memory, in which every frame
in use has exactly one owner, and how many are in use follows from the abstract state. At all times a trap of
any living task finds the kernel's page table, the mapped kernel stack of that task and the handler, and the
kernel sees its own sections where they are, with their permissions. Boot and every run
that can follow it, until a fork or exec finds no frame, are covered by one theorem, which is applied to the
board that the kernel is built for.

## How it is organised

| files | content |
|---|---|
| `Bytes`, `Seqs`, `Options` | words in byte sequences, bits, sequences without repetition |
| `BlockCache` | the block cache: a write-back queue that behaves as a plain disk |
| `IndexTree`, `TreeBuild`, `TreeFill`, `InodeTree`, `InodeGrow`, `DiskInode`, `GrowClear` | index trees and inodes |
| `FileBytes`, `Records`, `Bitmap`, `DiskFormat` | file contents, on-disk records, bitmaps; all of them byte by byte |
| `FsState`, `FsSteps`, `FsSpec`, `FsRuns` | the invariant of a volume, the abstract volume, its runs |
| `Efs`, `Vfs`, `Mount` | the file system's classes, formatting, mounting, whole runs |
| `TaskModel`, `TaskSteps`, `TaskRuns`, `TaskKernel` | the life cycle as a transition system; the kernel that follows it |
| `Paging`, `FrameAlloc`, `PageTree`, `PageTables` | pages, frames, page tables, the hardware walk |
| `MemoryAreas`, `MemorySets`, `MemoryFork`, `MemoryOwners`, `MemorySystem` | areas, address spaces, fork, ownership of frames, many spaces in one memory |
| `KernelStacks`, `TaskStacks`, `TrapContext` | kernel stacks and the kernel's space, the pids they belong to, trap contexts |
| `ProcessMemory`, `MainMemory`, `Machine` | tasks with their memory, the one physical memory, the whole machine from boot on |
| `Board`, `ShellLoop` | the machine on its board; forking and reaping forever |

Failing assertions and panics of the code are results (`ok == false`, `None` or `null`) with the exact
condition under which they occur. Where a panic is unreachable the model asserts so inside the method
that would raise it. Objects that the code updates in place are classes; what they stand for is a ghost
field or a function of their fields.

The block cache hands its clients two ghost values: `disk`, the contents every block appears to have, and
`pins`, the blocks with a live locked handle. Locking a block demands that it is not locked already and
that fewer blocks are than a budget allows, which may be anything from four to the sixteen entries of the
cache. So no file system operation ever waits for itself, or holds more than four blocks at once: an
inode's block and three levels of index blocks.

### Where the code is weaker than it looks

* `clear_size` asserts that at most 128^3 blocks lie under the double and triple indirect entries, while
  growth accepts 128^2 more. A file of more than 27 + 128 + 128^3 blocks can be written but not cleared;
  `DiskInodes.DiskInode.ClearSize`, `GrowClear.GrowThenClear` and `Vfs.Inode.Clear` state that this is
  exactly when it fails, and `GrowClear.WritableNotClearable` names a size.
* `total_blocks` keeps counting past the capacity of the trees; `InodeGrow.TotalBlocksExact` states that
  it is right exactly up to that capacity, and `InodeGrow.TotalBlocksPastCapacity` names the first wrong size.
* `translate` succeeds on a mapped page whatever its flags; the hardware faults on a page that is neither
  readable nor executable, or writable but not readable. `PageTree.HardwareAgrees` gives the exact
  condition, and `PageTree.WriteOnlyFaults` an entry that fails it.

## Model

| member | source | states |
|---|---|---|
| `BlockCaches.BlockCacheManager.GetBlockCache` | easy-fs/src/block_cache.rs:91-121 | Succeeds exactly when the block is cached, there is room, or some entry has no handle; hit, miss and eviction keep the visible disk, unique ids, the bound of 16 and clean entries equal to the device; the one entry of the block has one handle more, every other entry is an old one, and the order is first in, first out with the oldest entry without handles evicted. |
| `BlockCaches.BlockCacheManager.MakeRoom` | easy-fs/src/block_cache.rs:100-111 | Eviction from a full queue removes exactly the oldest entry without handles, and fails exactly when there is none. |
| `BlockCaches.BlockCacheManager.Sync` | easy-fs/src/block_cache.rs:64-76 | Writing an entry back makes the device agree with it and changes nothing that a reader sees. |
| `BlockCaches.BlockCacheManager.Lock` | easy-fs/src/block_cache.rs:130-137 | Within any budget of locks from four to sixteen, and for a block that is not locked, the panic is unreachable, the block gets exactly one handle, and the budget is kept. |
| `BlockCaches.BlockCacheManager.Unlock` | easy-fs/src/block_cache.rs:72-76 | Dropping the only handle releases the block and keeps the visible disk. |
| `BlockCaches.BlockCacheManager.Read` | easy-fs/src/block_cache.rs:56-58 | A reader gets the bytes of the visible disk. |
| `BlockCaches.BlockCacheManager.Modify` | easy-fs/src/block_cache.rs:45-62 | A writer changes the visible disk at this block only. |
| `BlockCaches.BlockCacheManager.SyncAll` | easy-fs/src/block_cache.rs:139-144 | Afterwards the device equals the visible disk. |
| `Bits.BitSet` | easy-fs/src/bitmap.rs:42-46 | Setting a clear bit of a word sets that bit and no other. |
| `Bits.BitClear` | easy-fs/src/bitmap.rs:61-63 | Clearing a set bit clears that bit and no other. |
| `Bits.TrailingOnesLeast` | easy-fs/src/bitmap.rs:38-43 | The number of trailing ones is the position of the least clear bit. |
| `Bitmaps.Bitmap.Alloc` | easy-fs/src/bitmap.rs:29-55 | Returns the least clear bit over all words and blocks and sets only that bit, or `None` when every bit is set. |
| `Bitmaps.Bitmap.Dealloc` | easy-fs/src/bitmap.rs:57-65 | Succeeds exactly when the bit is set and then clears only that bit. |
| `IndexTree.SubtreePrefix` | easy-fs/src/layout.rs:333-369 | The pre-order list of a tree with fewer data blocks is a prefix of the list with more. |
| `IndexTree.SubtreeSize2` | easy-fs/src/layout.rs:128-135 | A double-indirect tree of n data blocks has n and one block per started 128. |
| `IndexTree.SubtreeSize3` | easy-fs/src/layout.rs:136-143 | The same for the triple-indirect tree, with one more block per started 128^2. |
| `TreeBuild.BuildTree` | easy-fs/src/layout.rs:333-369 | Extends the list of a subtree by exactly the supplied blocks, in order, changing only index blocks of that subtree, and reports the leaves done. |
| `TreeBuild.CollectTree` | easy-fs/src/layout.rs:455-487 | Collects exactly the pre-order list of a subtree. |
| `TreeFill.FillIndirect1` | easy-fs/src/layout.rs:222-230 | The same extension for the single-indirect block. |
| `TreeFill.FillIndirect2` | easy-fs/src/layout.rs:241-266 | The same extension for the double-indirect tree, from any starting point inside it. |
| `TreeFill.CollectEntries` | easy-fs/src/layout.rs:392-401 | Collects the list under a single-indirect block. |
| `TreeFill.CollectIndirect2` | easy-fs/src/layout.rs:410-438 | Collects the list under the double-indirect block: its full entries and the last, partial one. |
| `InodeTree.DataBlockAt` | easy-fs/src/layout.rs:151-191 | Lookup agrees with construction: data block i stands at position Count(i + 1) - 1 of the block list, however far the file has grown since. |
| `InodeTree.BlockListLength` | easy-fs/src/layout.rs:121-144 | The list of a file with n data blocks has Count(n) blocks. |
| `InodeGrow.InoGrownTrans` | easy-fs/src/layout.rs:197-287 | Two growth steps in sequence are one growth step with both lists of blocks. |
| `InodeGrow.TotalBlocksExact` | easy-fs/src/layout.rs:117-149 | The closed form equals the number of blocks of the tree exactly for sizes up to the capacity. |
| `InodeGrow.TotalBlocksPastCapacity` | easy-fs/src/layout.rs:136-143 | The closed form is right for every smaller size and wrong for this one. |
| `DiskInodes.DiskInode.IncreaseSize` | easy-fs/src/layout.rs:197-287 | Growth from any size to any larger one consumes all of the supplied blocks and appends them to the block list in order; no existing block moves and only index blocks change. |
| `DiskInodes.DiskInode.ClearSize` | easy-fs/src/layout.rs:373-452 | Succeeds exactly up to 27 + 128 + 128^3 data blocks; returns exactly the block list and leaves an empty inode. |
| `DiskInodes.DiskInode.GetBlockId` | easy-fs/src/layout.rs:151-191 | The division-and-remainder walk through direct entries and three levels finds the data block that the tree defines. |
| `DiskInodes.DiskInode.ReadAt` | easy-fs/src/layout.rs:490-528 | Copies exactly the part of the contents that the offset, the buffer and the size allow, and leaves the rest of the buffer. |
| `DiskInodes.DiskInode.WriteAt` | easy-fs/src/layout.rs:531-567 | Overwrites exactly the bytes that lie within the size, in the file's own data blocks, and keeps the tree. |
| `GrowClear.GrowThenClear` | easy-fs/src/layout.rs:197-452 | After any number of growth steps with distinct fresh blocks, clearing returns exactly the concatenation of all blocks supplied, and as many as the closed form counts, exactly when its assertion holds. |
| `GrowClear.WritableNotClearable` | easy-fs/src/layout.rs:440-447 | Growing an empty inode by one block more than `clear_size` accepts, with any fresh blocks, and clearing it fails the assertion. |
| `FileBytes.LookupStable` | easy-fs/src/layout.rs:151-191 | Growth never changes where an existing data block is. |
| `FileBytes.LookupOfNew` | easy-fs/src/layout.rs:197-287 | Which of the supplied blocks becomes data block i. |
| `FileBytes.BlockOfInjective` | easy-fs/src/layout.rs:151-191 | Different block numbers of a file have different blocks. |
| `Records.InoRoundTrip` | easy-fs/src/layout.rs:82-92 | An inode stored in a block is read back unchanged. |
| `Records.DirentRoundTrip` | easy-fs/src/layout.rs:578-611 | A directory entry read back gives the name and the inode number it was made from. |
| `Records.LegalNames` | easy-fs/src/layout.rs:588-605 | Of the names of at most 27 bytes the legal ones, without a zero byte, are exactly those that an entry gives back. |
| `Records.EntryByte` | easy-fs/src/layout.rs:570-611 | Each of the 32 bytes of an entry: the name, zeros, and the inode number, lowest byte first. |
| `FsSteps.SpliceIsWrite` | easy-fs/src/vfs.rs:164-172 | A write on the grown raw blocks is a write on the contents with a gap of zeros, because bytes past the size are zero, and keeps them so. |
| `FsSteps.AllocateOne` | easy-fs/src/vfs.rs:86-90 | Allocating one more block keeps the account of the blocks taken so far: distinct, free before, in the data area and still zero. |
| `FsSteps.FreeOne` | easy-fs/src/vfs.rs:180-182 | Freeing one more block keeps the account of the blocks freed so far: zero and not allocated. |
| `FsSpec.Conservation` | easy-fs/src/efs.rs:129-150 | Free blocks and the blocks of all inodes are together exactly the data area. |
| `FsSpec.FreeSpace` | easy-fs/src/vfs.rs:86-90 | The number of free blocks is the data area less what the files and the directory need by the closed form. |
| `FsSpec.VolumeIsDetermined` | easy-fs/src/vfs.rs:45-60 | The bytes on a disk represent at most one volume. |
| `FsSpec.DirEntryAt` | easy-fs/src/layout.rs:570-611 | Slot i of the directory is the i-th name, zeros up to 28 bytes, and the four bytes of i + 1, the lowest first. |
| `FsRuns.FilesAreIndependent` | easy-fs/src/vfs.rs:159-185 | In any run each file ends as its own operations leave it. |
| `FsRuns.Untouched` | easy-fs/src/vfs.rs:164-185 | A file that no operation names keeps its contents. |
| `FsRuns.ReadBack` | easy-fs/src/vfs.rs:159-172 | What was written is read back, the gap is zeros, and all other bytes are as before, after any run that does not name the file. |
| `FsRuns.NamesInOrder` | easy-fs/src/vfs.rs:94-157 | The directory lists exactly the created names, in order of creation, and never moves one. |
| `FsRuns.FindIsStable` | easy-fs/src/vfs.rs:62-75 | The slot found for a name is the one it was created with, whatever happens later. |
| `FsRuns.RunsAreWellFormed` | easy-fs/src/vfs.rs:94-140 | Names stay distinct and legal, and each has a file. |
| `FsState.OtherSlot` | easy-fs/src/efs.rs:115-123 | Inode slots do not overlap: storing one inode changes no other. |
| `DiskFormat.SuperBlockBytes` | easy-fs/src/layout.rs:25-69 | On the device of a volume the first bytes are the magic number and then the five sizes, in the order of the fields, each lowest byte first. |
| `DiskFormat.InodePosition` | easy-fs/src/efs.rs:115-123 | Inode i lies at byte 128 i after the inode bitmap. |
| `DiskFormat.InodeFields` | easy-fs/src/layout.rs:82-91 | What is read from a slot are the size, the 27 direct and three indirect entries and the kind, at the offsets of the fields. |
| `DiskFormat.StoredInode` | easy-fs/src/layout.rs:82-91 | What is stored in a slot are these bytes, and no other byte of the block changes. |
| `DiskFormat.NewInodeIsClear` | easy-fs/src/layout.rs:96-103 | A new inode has size 0, no block, and the kind asked for. |
| `DiskFormat.DataBlocksExact` | easy-fs/src/layout.rs:117-119 | The number of data blocks is the least that holds the size. |
| `DiskFormat.IndexEntryBytes` | easy-fs/src/layout.rs:79-79 | Entry i of an index block is its i-th group of four bytes. |
| `DiskFormat.BitmapByte` | easy-fs/src/bitmap.rs:14-18 | Bit k of a bitmap is bit k % 8 of byte k / 8, counted through its blocks. |
| `Efs.CreateLayoutTiles` | easy-fs/src/efs.rs:29-48 | The five areas tile the device exactly, the inode area has a slot for every inode bit, and the data bitmap covers the data area. |
| `Efs.SuperRoundTrip` | easy-fs/src/layout.rs:47-69 | The super block read back gives the layout that was written. |
| `Efs.EasyFileSystem.GetDiskInodePos` | easy-fs/src/efs.rs:115-123 | Finds the block and offset of an inode slot as the layout defines them. |
| `Efs.EasyFileSystem.AllocInode` | easy-fs/src/efs.rs:129-131 | Gives the next inode number, since inodes are never freed. |
| `Efs.EasyFileSystem.AllocData` | easy-fs/src/efs.rs:134-136 | Takes the least clear bit and gives its block, which lies in the data area exactly when some block of it was free; fails exactly when every bit is set. |
| `Efs.EasyFileSystem.DeallocData` | easy-fs/src/efs.rs:138-150 | Zeroes the block and clears its bit; the assertion in the bitmap cannot fail. |
| `Vfs.Inode.IncreaseSize` | easy-fs/src/vfs.rs:77-92 | Allocates exactly the blocks that growth consumes, from the free ones, and keeps every other file's blocks. |
| `Vfs.Inode.WriteAt` | easy-fs/src/vfs.rs:164-172 | The volume becomes the abstract write: the buffer spliced in at the offset, any gap zero, every other file and the directory unchanged; everything is on the device. |
| `Vfs.Inode.ReadAt` | easy-fs/src/vfs.rs:159-162 | Returns exactly the clipped slice of the file's contents, or, for the root, of the directory, whose bytes `FsSpec.DirEntryAt` gives. |
| `Vfs.Inode.Clear` | easy-fs/src/vfs.rs:174-185 | The file becomes empty and its blocks free, exactly when `clear_size` does not fail; the caller's own assertion on the number of blocks holds. |
| `Vfs.Inode.FindInodeId` | easy-fs/src/vfs.rs:45-60 | Finds the slot of a name, or nothing exactly when it is not there. |
| `Vfs.Inode.Find` | easy-fs/src/vfs.rs:62-75 | A handle to the file with this name, exactly when there is one. |
| `Vfs.Inode.Ls` | easy-fs/src/vfs.rs:142-157 | The names in order of creation. |
| `Vfs.Inode.Create` | easy-fs/src/vfs.rs:94-140 | A new empty file at the end of the directory, exactly when the name is not taken; all files keep their contents. |
| `Mount.Format` | easy-fs/src/efs.rs:24-83 | Formatting makes the empty volume with the computed layout, on a device with at least that many blocks. |
| `Mount.Open` | easy-fs/src/efs.rs:85-105 | Mounting succeeds exactly on the magic number and takes the layout from the super block. |
| `Mount.OpenFindsLayout` | easy-fs/src/efs.rs:85-105 | The layout found is the one that formatting wrote. |
| `Mount.Remount` | easy-fs/src/efs.rs:85-105 | Mounting the device of a synchronised volume gives the same volume. |
| `Mount.RootInode` | easy-fs/src/efs.rs:107-113 | The handle to the root directory. |
| `Mount.Run` | easy-fs/src/vfs.rs:94-185 | Any run of allowed operations is the same run on the abstract volume, and keeps the whole-volume invariant. |
| `Mount.FormatRunRemount` | easy-fs/src/efs.rs:24-105 | Formatting, any run, synchronising and mounting afresh finds exactly what the operations amount to. |
| `TaskSteps.DispatchInv` | os/src/task/processor.rs:44-63 | Dispatch keeps the invariant. |
| `TaskSteps.SuspendInv` | os/src/task/mod.rs:41-57 | Suspension keeps the invariant. |
| `TaskSteps.BeginReadInv` | os/src/syscall/fs.rs:26-44 | Taking a handle for a blocking read keeps the invariant. |
| `TaskSteps.EndReadInv` | os/src/syscall/fs.rs:26-44 | Releasing it keeps the invariant. |
| `TaskSteps.ForkInv` | os/src/task/task.rs:132-181 | Fork keeps the invariant: one parent, one place in the ready queue, two handles, a new pid. |
| `TaskSteps.ExitInv` | os/src/task/mod.rs:65-112 | Exit keeps the invariant, and the exiting task has exactly two handles, so dropping one does not free it. |
| `TaskSteps.WaitInv` | os/src/syscall/process.rs:57-90 | waitpid keeps the invariant; the reaped child has exactly one handle and its pid can be recycled. |
| `TaskSteps.PidAllocOk` | os/src/task/pid.rs:22-29 | A new pid is one that nobody has. |
| `TaskRuns.BootInv` | os/src/task/mod.rs:114-125 | The invariant holds when the initial process has been added. |
| `TaskRuns.RunInv` | os/src/task/mod.rs:41-112 | In every run every task is exactly one of current, once in the ready queue, or zombie; each but the first is once in the children of exactly one living parent with a smaller identity; zombies have no children; pids in use are distinct. |
| `TaskRuns.StrongIsReferences` | os/src/syscall/process.rs:76-79 | The strong count of a task is the number of handles to it, counted over the ready queue, the current slot, all children lists, the static handle and blocked reads. |
| `TaskRuns.ExitStatusKept` | os/src/task/mod.rs:84-90 | Until it is reaped a zombie keeps its pid and exit code. |
| `TaskRuns.ExitCodeDelivered` | os/src/task/mod.rs:84-90 | In any run after an exit, the task is reaped or still a zombie child of a living parent with its pid and the very code that was passed to exit. |
| `TaskRuns.ReapedOnce` | os/src/syscall/process.rs:76-85 | A task is reaped at most once in any run and never comes back. |
| `TaskRuns.ParentOrInit` | os/src/task/mod.rs:92-102 | In any run the parent of a living or zombie task is the task that forked it or the initial process. |
| `TaskRuns.ReaperIsParentOrInit` | os/src/syscall/process.rs:71-79 | Whoever reaps a task, at the end of any run, is the task that forked it or the initial process. |
| `TaskRuns.RoundRobin` | os/src/task/manager.rs:21-27 | The task at position k of the ready queue is dispatched after exactly k others, whatever forks, yields and exits happen in between. |
| `TaskKernel.PidAllocator.Alloc` | os/src/task/pid.rs:22-29 | Takes the last recycled pid, or else the next new one. |
| `TaskKernel.PidAllocator.Dealloc` | os/src/task/pid.rs:31-39 | Succeeds exactly for a pid that was handed out and not returned. |
| `TaskKernel.Kernel.constructor` | os/src/task/mod.rs:114-125 | Boot makes the initial process ready, with pid 0. |
| `TaskKernel.Kernel.DropRef` | os/src/task/pid.rs:49-54 | Dropping the last handle frees the block and its pid; dropping another only counts. |
| `TaskKernel.Kernel.Dispatch` | os/src/task/processor.rs:44-63 | Takes the front of the ready queue, or does nothing when it is empty. |
| `TaskKernel.Kernel.Suspend` | os/src/task/mod.rs:41-57 | The running task becomes ready at the back of the queue. |
| `TaskKernel.Kernel.BeginRead` | os/src/syscall/fs.rs:26-44 | A read keeps a handle to its task while it waits. |
| `TaskKernel.Kernel.EndRead` | os/src/syscall/fs.rs:26-44 | The handle is dropped when the read returns. |
| `TaskKernel.Kernel.Fork` | os/src/syscall/process.rs:28-40 | The child is ready, in the parent's children, with a new pid that the parent gets as result. |
| `TaskKernel.Kernel.Reparent` | os/src/task/mod.rs:93-99 | The loop moves all children to the initial process and nothing else. |
| `TaskKernel.Kernel.Exit` | os/src/task/mod.rs:65-112 | The task becomes a zombie with its exit code and without children; the initial process halts the machine instead. |
| `TaskKernel.Kernel.Waitpid` | os/src/syscall/process.rs:57-90 | Removes the first matching zombie, delivers its pid and exit code, and its strong count is 1; which child matches and what is answered `WaitAnswers` says. |
| `TaskKernel.WaitOutcome` | os/src/syscall/process.rs:55-90 | -1 exactly when no child matches, -2 exactly when some match and none is a zombie, a pid exactly when a matching child is a zombie; `WaitAnswers` says the same on pids. |
| `TaskKernel.WaitAnswers` | os/src/syscall/process.rs:57-90 | For a pid argument: the answer is that pid, or -1 exactly when no child has it, or -2 exactly when the child that has it is no zombie. For -1: -1 exactly without children, -2 exactly with some but no zombie. For any other negative argument: -1, as long as pids are below 2^63. |
| `TaskKernel.WaitReapsAnswer` | os/src/syscall/process.rs:76-85 | The child that goes is a zombie child of the caller with the pid in the answer, and no other task goes. |
| `TaskKernel.Kernel.Run` | os/src/task/processor.rs:44-63 | Any sequence of events that can happen keeps the kernel valid and follows the transition system. |
| `Paging.EntryRoundTrip` | os/src/mm/page_table.rs:29-63 | An entry gives back the page number and every flag it was made from. |
| `Paging.Indexes` | os/src/mm/address.rs:162-173 | The three indices are the digits of the page number, and determine it. |
| `FrameAlloc.Memory.Alloc` | os/src/mm/frame_allocator.rs:67-76 | Gives a cleared frame that nobody had, or nothing exactly when none is free; every managed frame is never used, recycled or in use. |
| `FrameAlloc.Memory.Dealloc` | os/src/mm/frame_allocator.rs:77-85 | Panics exactly when a managed frame is not in use; the frame joins the recycled ones. |
| `FrameAlloc.Memory.FreeIsRest` | os/src/mm/frame_allocator.rs:46-85 | The frames that can still be allocated are as many as there are, less those in use. |
| `PageTree.TreeFrame` | os/src/mm/page_table.rs:109-125 | A page table depends on its own frames only. |
| `PageTree.WriteLeaf` | os/src/mm/page_table.rs:128-139 | Writing the entry of one page changes the map at that page only. |
| `PageTree.AddMid` | os/src/mm/page_table.rs:99-103 | Creating a middle node changes no mapping. |
| `PageTree.AddLast` | os/src/mm/page_table.rs:99-103 | Creating a last node changes no mapping. |
| `PageTree.NodesCount` | os/src/mm/page_table.rs:89-107 | How many frames a page table takes follows from which last nodes it has. |
| `PageTree.TablesMore` | os/src/mm/page_table.rs:99-103 | One more last node takes one frame, and a second one exactly when its middle node is not there yet. |
| `PageTree.HardwareAgrees` | os/src/mm/page_table.rs:109-143 | The Sv39 walk translates a page exactly when it is mapped with flags that make a leaf, and then to the page number and flags that were mapped. |
| `PageTree.WriteOnlyFaults` | os/src/mm/page_table.rs:140-143 | For a page mapped as writable only, the software reads a valid entry and the hardware walk fails. |
| `PageTree.MappedMeans` | os/src/mm/page_table.rs:29-36 | In numbers: the entry of a mapped page is 1024 times the page number, plus the flags with V, in the eight bytes of its slot, lowest first; the hardware translates to exactly that when the page is readable, or executable and not writable, and faults otherwise. |
| `PageTables.PageTable.constructor` | os/src/mm/page_table.rs:74-80 | A new table maps nothing and owns one frame. |
| `PageTables.PageTable.FindPteCreate` | os/src/mm/page_table.rs:89-107 | Finds the entry of a page, creating exactly the nodes that are missing, on unused frames; fails exactly when there are fewer free frames than missing nodes. No mapping changes and no other frame is touched. |
| `PageTables.PageTable.FindPte` | os/src/mm/page_table.rs:109-125 | Finds the entry of a page exactly when the nodes on the path exist. |
| `PageTables.PageTable.Map` | os/src/mm/page_table.rs:128-132 | Succeeds exactly when the page is not mapped and there is a frame for each missing node, and then adds that mapping only: this page number, and these flags and V. The hardware walk then gives both exactly when the flags make a leaf. |
| `PageTables.PageTable.Unmap` | os/src/mm/page_table.rs:135-139 | Succeeds exactly when the page is mapped, and then removes that mapping only. |
| `PageTables.PageTable.Translate` | os/src/mm/page_table.rs:141-143 | Gives a valid entry exactly for mapped pages, and then the one that was mapped. |
| `PageTables.PageTable.TranslateVa` | os/src/mm/page_table.rs:145-152 | The physical address of a byte of a mapped page; nothing exactly when there is no entry for the page. |
| `PageTables.PageTable.Run` | os/src/mm/page_table.rs:126-143 | Any sequence of mappings and unmappings, however long, acts as on a finite map; it takes a frame for each node that is missing at the start and no other. |
| `PageTables.LastDecides` | os/src/mm/page_table.rs:126-143 | The last operation on a page decides whether it is mapped, and the number that its entry is. |
| `MemoryAreas.MapArea.constructor` | os/src/mm/memory_set.rs:286-300 | An area covers exactly the pages from that of the first address on that begin below the end address; so an empty range in the middle of a page covers that page, and an aligned one none. |
| `MemoryAreas.MapArea.FromAnother` | os/src/mm/memory_set.rs:301-308 | The same area without frames. |
| `MemoryAreas.MapArea.MapOne` | os/src/mm/memory_set.rs:309-323 | Maps one page, to a cleared frame that nobody had or to itself, exactly when it is not mapped and there are frames for it and its nodes. |
| `MemoryAreas.MapArea.Map` | os/src/mm/memory_set.rs:330-334 | Succeeds exactly when no page of the range is mapped and there are frames for the missing nodes and, if it is framed, the pages; maps each page to its own cleared frame, or to itself, with the area's permissions. |
| `MemoryAreas.MapArea.UnmapOne` | os/src/mm/memory_set.rs:324-329 | Unmaps one page and frees its frame. |
| `MemoryAreas.MapArea.Unmap` | os/src/mm/memory_set.rs:335-339 | Succeeds exactly when every page of the range is mapped; frees exactly the area's frames. |
| `MemoryAreas.MapArea.CopyData` | os/src/mm/memory_set.rs:342-361 | Byte o of page k of the area becomes byte 4096 k + o of the data, if there is one, and stays otherwise; no other frame changes. |
| `MemorySets.MemorySet.constructor` | os/src/mm/memory_set.rs:45-50 | An empty address space owns one new frame. |
| `MemorySets.MemorySet.FootprintCount` | os/src/mm/memory_set.rs:38-41 | An address space owns one frame for each node of its page table and one for each page of its framed areas. |
| `MemorySets.MemorySet.MapTrampoline` | os/src/mm/memory_set.rs:87-93 | Maps the trampoline page outside the areas exactly when it is not mapped and there are frames for its nodes; the hardware then finds it, valid, readable and executable (flags 11). |
| `MemorySets.MemorySet.Push` | os/src/mm/memory_set.rs:79-85 | Succeeds exactly when the range is free and there are frames for it; areas and table keep agreeing, old pages keep their bytes, new pages hold the data, then zeros (byte by byte: `InitialByte`), and nobody else's frame is touched. |
| `MemorySets.InitialByte` | os/src/mm/memory_set.rs:342-361 | Byte o of page k of a new area is byte 4096 k + o of its data, or zero past their end. |
| `MemorySets.MemorySet.InsertFramedArea` | os/src/mm/memory_set.rs:56-66 | The same for a framed area given by addresses; its pages are zero. |
| `MemorySets.MemorySet.RemoveAreaWithStartVpn` | os/src/mm/memory_set.rs:68-78 | Removes the first area that starts there, with exactly its pages and its frames; the assertions in unmapping cannot fail. |
| `MemorySets.MemorySet.RecycleDataPages` | os/src/mm/memory_set.rs:272-275 | Frees exactly the areas' frames and leaves the page table as it is. |
| `MemorySets.MemorySet.Drop` | os/src/mm/frame_allocator.rs:34-38 | Dropping an address space frees exactly its frames; the panic of the allocator is unreachable. |
| `MemoryFork.FromExistedUser` | os/src/mm/memory_set.rs:240-258 | The copy has the same pages, the same flags and the same bytes, on frames that nobody had; the original is untouched; the trampoline is shared. |
| `MemoryFork.CopyPages` | os/src/mm/memory_set.rs:249-255 | The copy loop gives each page of the target the bytes of the source page and changes nothing else. |
| `MemoryFork.CloneKeys` | os/src/mm/memory_set.rs:301-308 | Areas that are the same but for their frames map the same pages. |
| `MemoryFork.CloneFlags` | os/src/mm/memory_set.rs:309-323 | And they map them with the same flags. |
| `MemoryOwners.ChangeKeepsPartition` | os/src/mm/frame_allocator.rs:34-38 | What is confined to one address space keeps every frame in use with exactly one owner. |
| `MemoryOwners.CreateKeepsPartition` | os/src/mm/frame_allocator.rs:67-76 | A new address space keeps it as well. |
| `MemoryOwners.PartitionCount` | os/src/mm/frame_allocator.rs:67-85 | The number of frames in use is the sum over their owners. |
| `MemoryOwners.Isolated` | os/src/mm/memory_set.rs:240-258 | Whatever is confined to one address space leaves every other with the same table, the same hardware translation and the same bytes. |
| `MemoryOwners.StoreIsConfined` | os/src/mm/memory_set.rs:240-258 | A store to a page of an address space is confined to it. |
| `MemorySystem.Spaces.CreateSet` | os/src/mm/memory_set.rs:240-243 | A new space is empty but for the trampoline, on frames that nobody had. |
| `MemorySystem.Spaces.InsertInto` | os/src/mm/memory_set.rs:56-85 | An area appears in one abstract space, with its permission and its data or zeros; every other space is unchanged. |
| `MemorySystem.Spaces.RemoveFrom` | os/src/mm/memory_set.rs:68-78 | An area disappears from one abstract space. |
| `MemorySystem.Spaces.ForkSet` | os/src/mm/memory_set.rs:240-258 | A copy of one abstract space appears beside the others. |
| `MemorySystem.Spaces.StoreTo` | os/src/mm/page_table.rs:210-217 | A store through the page table changes one page of one abstract space. |
| `MemorySystem.Spaces.RecycleSet` | os/src/mm/memory_set.rs:272-275 | The space of a zombie keeps only the frames of its page table. |
| `MemorySystem.Spaces.DropSet` | os/src/mm/frame_allocator.rs:34-38 | A deallocated space owns no frame. |
| `MemorySystem.Spaces.Run` | os/src/mm/memory_set.rs:43-275 | Any run of operations on any number of spaces in one memory is the same run on independent maps from pages to flags and bytes, as long as at each moment there are frames for the spaces as they are then; every frame in use has exactly one owner throughout. |
| `MemorySystem.Spaces.FramesCounted` | os/src/mm/frame_allocator.rs:46-85 | How many frames are free follows from the abstract spaces: each has one for every node of its page table and every page. |
| `MemorySystem.Spaces.LoadFrom` | os/src/mm/page_table.rs:202-208 | A read through the page table gives the bytes of the abstract page. |
| `MemorySystem.Spaces.CreateFrom` | os/src/mm/memory_set.rs:173-238 | Loading disjoint areas makes a space with exactly their pages, permissions and data. |
| `MemorySystem.Spaces.ReplaceByLast` | os/src/task/task.rs:115-118 | A new space takes the place of an old one, whose frames are free again. |
| `MemorySystem.Spaces.Resume` | os/src/mm/frame_allocator.rs:90-94 | What others do to their own frames of the same memory leaves all spaces as they are. |
| `MemorySystem.BuiltPages` | os/src/mm/memory_set.rs:173-238 | The pages of a loaded program are exactly those of its areas. |
| `MemorySystem.InSpecMeans` | os/src/mm/memory_set.rs:286-300 | An area of a program covers the pages from that of its first address on that begin below its end. |
| `MemorySystem.BuiltBytes` | os/src/mm/memory_set.rs:173-238 | Every byte of every page of a loaded program is the byte of its segment, or zero past the end of the file data, and the page has the permissions of the segment and V. |
| `MemorySystem.Spaces.PageSeen` | os/src/mm/memory_set.rs:309-323 | At all times the hardware translates a page of a space to a frame of that space with the abstract bytes and flags, exactly when the flags make a leaf. |
| `MemorySystem.Spaces.TrampolineSeen` | os/src/mm/memory_set.rs:87-93 | At all times the hardware finds the trampoline at the last page of every space, readable and executable. |
| `MemorySystem.OthersUnchanged` | os/src/mm/memory_set.rs:240-258 | In any run a space that no operation names stays as it is. |
| `TrapContexts.ForkedWords` | os/src/task/task.rs:173-176 | Fork changes exactly two words of the child's trap context: word 35, its kernel stack, and word 10, 0 as the result of the call. |
| `TrapContexts.WordsWritten` | os/src/trap/context.rs:28-48 | A new context overwrites exactly its own words of the page. |
| `TrapContexts.InitLeads` | os/src/trap/context.rs:28-48 | A new context leads to the kernel's page table, the task's kernel stack and the trap handler. |
| `TrapContexts.InitialWords` | os/src/trap/context.rs:28-48 | The words of a new context: the stack pointer in word 2, the other registers 0, then the status, the entry point, the kernel's page table, the kernel stack and the handler in words 32 to 36; the rest of the page stays. |
| `TrapContexts.WordBytes` | os/src/trap/context.rs:4-20 | A word of a context is eight bytes of the page, the lowest first. |
| `TrapContexts.CodeStored` | os/src/syscall/process.rs:81-85 | Storing an exit code through a pointer changes exactly four bytes, which are the code, the lowest first. |
| `ProcessMemory.NextConsistent` | os/src/task/task.rs:22-32 | Every action keeps the world consistent: a living task has an address space, a zombie an empty one, a reaped task none, and the trap context of every living task leads to the kernel stack of its own pid. |
| `ProcessMemory.RunConsistent` | os/src/task/task.rs:22-32 | The same over every run of scheduling, fork, exec, exit, waitpid and stores. |
| `ProcessMemory.TasksOfRun` | os/src/task/task.rs:22-32 | The tasks of any run of the machine take a run of the life cycle, so all that holds in those holds here. |
| `ProcessMemory.ForkCopiesMemory` | os/src/task/task.rs:132-181 | After fork the child has the parent's areas, pages and flags, and the same bytes but for two words of the trap context. |
| `ProcessMemory.LoadedStarts` | os/src/task/task.rs:61-106 | A loaded program has exactly the pages, flags and bytes of its areas, and in its trap context the words to start at its entry point on its own stack with all other registers 0. |
| `ProcessMemory.ExecStarts` | os/src/task/task.rs:107-131 | exec gives this to its caller, and leaves every other task and the tasks themselves as they are. |
| `ProcessMemory.WaitStoresCode` | os/src/syscall/process.rs:76-85 | After a waitpid that reaps, the four bytes at the pointer hold the child's exit code, every other byte of the caller is unchanged, and the child's space is gone. |
| `ProcessMemory.ExitCodeArrives` | os/src/syscall/process.rs:76-85 | What a task passes to exit is what the waitpid that reaps it, after any run in between, stores at the pointer in the memory of its caller, changing no other byte of it. |
| `ProcessMemory.OnlyTheRunningTask` | os/src/mm/memory_set.rs:240-258 | An action leaves the memory of every living task but the running one as it is. |
| `ProcessMemory.MemoryIsPrivate` | os/src/mm/memory_set.rs:240-258 | While a living task does not run its memory stays as it is, page for page, whatever the others do. |
| `KernelStacks.StackAddresses` | os/src/task/pid.rs:61-65 | The stack addresses, cut to 39 bits, are whole pages at the top of the address space. |
| `KernelStacks.StackTopMeans` | os/src/task/pid.rs:97-100 | The address recorded for a trap is 12288 bytes lower for each further pid, and cut to 39 bits it is the end of the stack of that pid. |
| `KernelStacks.StacksApart` | os/src/task/pid.rs:61-65 | Stacks of different pids are apart, and the page below a stack belongs to none. |
| `KernelStacks.NewStack` | os/src/task/pid.rs:71-82 | A stack for a pid without one is always mapped on free pages, if there are frames for it. |
| `KernelStacks.DropStack` | os/src/task/pid.rs:103-111 | Dropping a stack unmaps exactly its pages and frees exactly its frames. |
| `KernelStacks.NewKernel` | os/src/mm/memory_set.rs:95-170 | The kernel's space is built exactly when no two of its sections share a page and there are frames for the nodes of its page table; it maps exactly the pages of its sections, each to itself with the permissions of its section, and the trampoline. |
| `KernelStacks.KernelIsSmall` | os/src/mm/memory_set.rs:147-156 | The kernel's page table is small even when a section covers all the frames there are. |
| `MainMemory.SharedMemory.FramesAccounted` | os/src/mm/frame_allocator.rs:90-115 | The frames in use are those of the kernel's space and of the tasks' spaces, each of exactly one of them. |
| `MainMemory.SharedMemory.FramesCounted` | os/src/mm/frame_allocator.rs:46-85 | The free frames are all but the nodes of the kernel's page table, two for each stack, and those of the tasks' spaces. |
| `MainMemory.SharedMemory.SectionSeen` | os/src/mm/memory_set.rs:95-170 | At all times the hardware translates every page of every section of the kernel to itself, with the permissions of that section. |
| `MainMemory.SharedMemory.StackSeen` | os/src/task/pid.rs:71-82 | At all times both pages of every kernel stack are mapped to frames of their own, readable and writable. |
| `MainMemory.SharedMemory.TrampolineSeen` | os/src/mm/memory_set.rs:87-93 | At all times the kernel's space has the same trampoline as the tasks' spaces, at the same page. |
| `MainMemory.SharedMemory.TrapFindsItsWay` | os/src/trap/trap.S:12-44 | For a task whose context leads to the kernel: word 34 is the token of the kernel's page table, word 35 the end of the mapped kernel stack of its pid, word 36 the handler, and the page of the trampoline is the same frame before and after the switch of page tables. |
| `MainMemory.SharedMemory.ForkTask` | os/src/task/task.rs:135-176 | From one memory: the copied space with the child's own trap context, and its kernel stack. |
| `MainMemory.SharedMemory.ReapTask` | os/src/syscall/process.rs:77-85 | The exit code is stored for the caller; the child's stack and space go back to the one memory. |
| `MainMemory.SharedMemory.ExecTask` | os/src/task/task.rs:107-131 | A loaded program with its initial trap context replaces the old space; `ProcessMemory.LoadedStarts` gives its words and bytes. |
| `MainMemory.SharedMemory.AddStack` | os/src/task/pid.rs:71-82 | A kernel stack is mapped in the kernel's space, and no task's space changes. |
| `MainMemory.SharedMemory.RemoveStack` | os/src/task/pid.rs:103-111 | A kernel stack goes, with exactly its frames, and no task's space changes. |
| `Machines.BootConsistent` | os/src/task/task.rs:61-106 | The world after boot is consistent. |
| `Machines.BootPages` | os/src/task/task.rs:61-106 | From boot on the initial process has exactly the pages of its areas. |
| `Machines.BootStarts` | os/src/task/task.rs:61-106 | At boot the initial process has the bytes of its areas, and its trap context starts it at its entry point on its own stack. |
| `Machines.BootThenStore` | os/src/task/task.rs:61-106 | Right after boot the initial process can be dispatched and store to any page of its areas, and the bytes are there. |
| `Machines.BootIsSmall` | os/src/mm/memory_set.rs:95-170 | Beside the program's, booting takes about one frame for each 512 pages that the kernel can map. |
| `Machines.Machine.FramesConserved` | os/src/mm/frame_allocator.rs:46-115 | At all times the frames in use are exactly the kernel space's and those of the unreaped tasks' spaces, and no frame belongs to two of them. |
| `Machines.Machine.FramesCounted` | os/src/mm/frame_allocator.rs:46-85 | At all times the number of free frames is a function of the abstract world, and so the same whenever the world is the same. |
| `Machines.Machine.TrapsReady` | os/src/trap/trap.S:12-44 | In every state of every run this holds for every living task. |
| `Machines.Machine.Fork` | os/src/syscall/process.rs:28-40 | Fork on tasks, spaces, stacks and the one memory is the abstract fork; the caller gets the pid of the child, which no task had; the new stack never meets a mapped page. |
| `Machines.Machine.Waitpid` | os/src/syscall/process.rs:57-90 | waitpid likewise, with the answer that `TaskKernel.WaitAnswers` describes; stack, address space and pid of the child are free again. |
| `Machines.Machine.Exit` | os/src/task/mod.rs:65-112 | Exit likewise; the frames of the task's areas are free at once. |
| `Machines.Machine.Exec` | os/src/task/task.rs:107-131 | Exec likewise, with the start that `ProcessMemory.ExecStarts` describes; the old space is free again. |
| `Machines.Machine.WritePage` | os/src/mm/page_table.rs:210-217 | A store of the running task changes one of its pages and nothing else. |
| `Machines.Machine.Run` | os/src/task/processor.rs:44-63 | Any run of the machine in which there are frames for each fork and exec when it happens, counting what has come back by then, follows the abstract world; throughout there is one kernel stack for each unreaped task, and every frame in use has one owner. |
| `Machines.Machine.Boot` | os/src/main.rs:68-80 | From an empty frame allocator: the kernel's space, the initial process with its program and its stack, with no more frames than are in use afterwards; fails exactly when sections of the kernel share a page. |
| `Machines.Machine.BootAndRun` | os/src/main.rs:68-80 | Booting and any run that can follow end in the outcome of the abstract run from the abstract boot. |
| `Boards.SectionsDisjoint` | os/src/linker-qemu.ld:1-52 | The sections that the linker script and the board describe share no page. |
| `Boards.KernelSeesMemory` | os/src/mm/memory_set.rs:384-409 | At all times the kernel on this board sees all of memory and the device registers where they are: its code as executable and not writable, its constants as neither, all else as writable and not executable. |
| `Boards.BoardHasFrames` | os/src/boards/qemu.rs:1-7 | On this board there are frames for booting, although the kernel maps all of the memory that the allocator manages. |
| `Boards.BootBoard` | os/src/mm/frame_allocator.rs:95-104 | With the allocator set up as the kernel does it, booting on this board succeeds, and every run that can follow is the abstract run. |
| `ShellLoop.RoundFrames` | os/src/syscall/process.rs:28-90 | Fork, exit and waitpid of a child leave as many frames free as before, but for nodes of the kernel's page table. |
| `ShellLoop.ForkAndReapForever` | os/src/syscall/process.rs:28-90 | If there are frames for one fork, the initial process can fork and reap any number of times. |
| `ShellLoop.BootThenForever` | os/src/task/mod.rs:114-125 | The same as runs from boot. |

## Left out

- DiskInodes.DiskInode.WriteAt: an empty write whose offset is the size and a multiple of the block size; the loop body of `write_at` runs once even then, on a block that the file does not have.
- Sizes above the capacity of an inode and 32-bit overflow of sizes: the operations demand that the result fits the trees and the device, which the code unwraps or asserts.
- Vfs.Inode.Create: names longer than 27 bytes, on which the code panics when it makes or reads the entry, or with a NUL byte, which it cuts off when it reads the entry back; creation demands a legal name.
- Vfs.Inode.WriteAt: the root directory as a file, and the same empty write as above; the directory changes through `Create` only.
- Vfs.Inode.Clear: the root directory as a file, since clearing it would leave inodes that no name leads to.
- Updates of an inode inside its cached block: the model takes the inode out of its locked block and puts it back before the block is released.
- Identity of cached blocks: a cached block is named by its number, and one device is modelled, since lookups are by number only.
- Crash consistency: only the state after an operation has synchronised is specified, as there is no journal.
- MemorySets.MemorySet.Push: after a failing assertion or an allocation without a frame, where the code panics, the state is not specified.
- Machines.Machine.Run: a fork or exec without frames for it, where the code panics, ends the runs considered, and a fork demands that the stack of the new pid lies above the kernel's own areas.
- Machines.Machine.Waitpid: the pointer for the exit code is demanded to lie, with its four bytes, in one page of the caller other than that of the trap context; the code unwraps or follows it unchecked.
- Machines.Machine.WritePage: stores of the running task keep the three words of the trap context that lead to the kernel, which neither the trap code nor the kernel changes.
- Boards.BootBoard: there is demanded to be as much memory as the constant `MEMORY_END`, 0x8_0100_0000, says.
- TaskKernel.Kernel.Exit: the contents of a halted machine are not specified.
- File descriptor tables and the kernel's context switch: a switch is one atomic step. The contents of kernel stacks are not modelled.
- ELF parsing and linker symbols: address spaces are built from given disjoint areas and from given sections.
- `translated_byte_buffer`, `translated_str`, `from_token`: thin readers on top of `translate` and `translate_va`.
- The A and D bits and the permission checks of the hardware walk.
- Drivers, console, timer, heap allocator, locks and cells, user programs and the image packer.
