# Verified models of four operating-system projects

This project models the four stateful programs of the repository and proves
properties of the models with Dafny 4.11. `dafny verify dfyconfig.toml` checks
everything.

**File system** (`Disk`, `ShiftBlocks`, `FileTable`, `FileWrites`, `FileTruncate`,
`FileSystem`, `FileDefects`). The disk is one flat sequence of `DISK_BLOCKS * BLOCK_SIZE`
bytes, reached through whole-block reads and writes. The C block loops are
methods over real block buffers; the tables are arrays updated in place.
`FileSystem.Files()` is the list of (name, bytes) that the table and the disk
stand for, and the operations are proved to act on that list. The invariant
`Valid()` is kept by every operation, or kept exactly when a condition stated in
the operation's contract holds (`fs_open`, `fs_lseek`, `fs_write`, `fs_truncate`),
so it holds over every run of such calls. The one loop of `shiftBlocks` appears
twice, in `ShiftForward` and `ShiftBackward`, because a negative shift needs another
invariant.

**Scheduler** (`LinkedList`, `SchedModel`, `SchedInvariant`, `SchedRoundRobin`,
`SchedFifo`, `SchedProgress`, `SchedAdmission`, `SchedQueue`). The main thread, the scheduler
thread and N workers are a transition system whose steps are interleaved freely:
a schedule is any sequence of steps, and `Exec` gives the state it leads to if
every step was enabled. `enter_sched_queue` takes two steps, the last slice of a
worker five once it runs, and `rr_next_worker` one step per size check and per link followed,
so tail insertions may happen between any of them. The history variables
`inserted`, `left` and `log` record insertions, removals and choices of
`next_worker`. `list.c` and the `next_worker` policies are also proved on a real
heap list.

**Allocator** (`MemBlocks`, `NextSearch`, `MemState`, `Allocator`). `MemState.Mem` is the
allocator as a value and `Run` the state after any sequence of calls; the class
`Allocator` is the linked list of `mymem.c`, relinked and resized in place, whose
every call is proved to do to `State()` what the value-level function does.
`NextSearch` is the Next-fit loop step by step, to say when it ends.

**Producers and consumers** (`Buffer`, `ProducerConsumer`). The ten-cell array is
shifted in place; the threads are a transition system over lock, count, act and
unlock steps.

Modelling decisions:

- Integers are unbounded; the sizes involved (at most 2^25 bytes of disk, pool
  sizes, counters of threads) stay far below the C types' limits.
- Each operation of `list.c` used by the scheduler is one atomic step: the source
  takes no lock around them. Semaphores are atomic counters.
- A negative iteration count runs no loop, like 0, so iterations are naturals.
- After `initmem`, `last_allocated` points at the raw pool, and Next-fit follows
  the link found in those bytes (`mymem.c` lines 90 and 177-180). The model reads
  that link as NULL, so the first search starts at the head.
- The contents of a buffer fresh from malloc are arbitrary. In `fs_write` they
  reach the disk; they are the `residue` of `FileWrites`.
- `fs_create` in slot 63 writes, and `fs_write` on the file there reads, the size of
  a slot one past the table. That int is the field `beyond`; nothing else is taken to
  write it.
- `malloc(0)` returns a pointer.
- A C string in a 16-byte field is a `string`; a free slot's name is empty.

Properties that turned out to hold only under a condition:

- `fs_write` never reads the first block it touches, so it can damage whatever
  else lies in that block: exactly the bytes for which `ClearOfFirstBlock` fails.
  `testDisk.c` expects the neighbouring file to stay unchanged.
- `fs_create` looks for duplicates in 32 of 64 slots only: names stay distinct on
  every accepted creation exactly as long as there are at most 32 files.
- `fs_truncate` cuts `length - 1` bytes out of the disk instead of the bytes the file
  lost, and lays out the slots from the descriptor's number on, not from the file's.
  Another file keeps its bytes exactly when it comes before it, is empty, or moves by as
  many bytes as were cut; the layout survives exactly when nothing was cut off,
  nothing follows, or the descriptor's number is at most one past the file's slot.
  `testDisk.c` truncates 5 bytes to 3 through a low descriptor, where the two mistakes
  cancel; the same call through descriptor 2 damages the second file.
- A shift by -1, for a truncation to length 0 or the deletion of the empty name,
  changes nothing on the disk.
- `fs_lseek` accepts negative offsets, and `fs_open("")` opens a free slot: the
  descriptor invariant holds afterwards exactly when neither happens.
- Next-fit never considers the block last allocated or freed, so it can refuse
  every request on an entirely free pool. Its first search after `initmem` never ends
  if the request is larger than the pool.
- The comment on `fs_open` asks for names shorter than 15 characters; the code
  accepts up to 15.
- The scheduler can finish exactly when there is at least one thread and one slot.

## Model

| member | source | states |
|---|---|---|
| Disk.VirtualDisk.BlockWrite | TeamLastPicked_p6/disk.c:77-100 | An active, in-range write replaces exactly the bytes of that block; otherwise it fails and the disk is unchanged. |
| Disk.VirtualDisk.BlockRead | TeamLastPicked_p6/disk.c:102-125 | An active, in-range read fills the buffer with that block; otherwise it fails and the buffer is unchanged. |
| ShiftBlocks.ShiftBlocks | TeamLastPicked_p6/myfilesys.c:513-588 | For every disk, start and shift (also past the end of the disk), terminates and leaves the image with the bytes cut out, the rest slid left and the tail zero-filled; a negative shift leaves it unchanged. |
| ShiftBlocks.ShiftBackward | TeamLastPicked_p6/myfilesys.c:538-588 | With the target cursor ahead of the source cursor, every block written shifted is restored before it is read again. |
| ShiftBlocks.CopyRound | TeamLastPicked_p6/myfilesys.c:543-577 | One round keeps the target cursor exactly the shift behind the source cursor, both buffers consistent with the final image, and makes progress. |
| ShiftBlocks.NextSource | TeamLastPicked_p6/myfilesys.c:569-576 | Writing the source block back never changes the disk, even when both cursors share a block. |
| ShiftBlocks.ZeroTail | TeamLastPicked_p6/myfilesys.c:578-587 | Zeroing the rest of the target block and all later blocks completes the image. |
| ShiftBlocks.CutIsSplice | TeamLastPicked_p6/myfilesys.c:513-588 | The final image is prefix, remainder, zeros, also for a cut reaching past the end of the disk. |
| FileTable.StartIsSum | TeamLastPicked_p6/myfilesys.c:489-511 | A used file starts in the middle of the disk plus the sizes of the files before it. |
| FileTable.ExtentsOrdered | TeamLastPicked_p6/myfilesys.c:489-511 | Files lie inside the data area and end before any later file starts. |
| FileTable.ContentsSurviveCut | TeamLastPicked_p6/myfilesys.c:249-277 | Every other file's bytes are found at its new place after the cut. |
| FileTable.DeleteRefines | TeamLastPicked_p6/myfilesys.c:249-277 | Cutting the bytes and removing the slot removes one entry of the list of files and keeps the layout. |
| FileTable.CreateRefines | TeamLastPicked_p6/myfilesys.c:221-227 | Filling the first free slot appends one empty file to the list. |
| FileWrites.KeptIffClear | TeamLastPicked_p6/myfilesys.c:344-387 | A range outside the written bytes survives every write there, for every initial buffer, if and only if it stays clear of the first block touched. |
| FileWrites.OtherFileKeptIff | TeamLastPicked_p6/myfilesys.c:337-396 | Another file survives a write, for every initial buffer, if and only if it is empty or clear of the first block touched. |
| FileWrites.AppendKeepsPrefixIff | TeamLastPicked_p6/myfilesys.c:341-387 | The part of the file before the write offset survives if and only if it is empty or ends on a block boundary. |
| FileWrites.GrownLayout | TeamLastPicked_p6/myfilesys.c:350-366 | An accepted write keeps the layout if and only if the data end on the disk. |
| FileWrites.ViewAfterWrite | TeamLastPicked_p6/myfilesys.c:337-396 | After a write that fits, the file holds the data at the offset and its length is the larger of the old one and the end of the data; names and all other lengths are kept, and no byte changes but those written and those in the first block touched. |
| FileSystem.FileSystem.constructor | TeamLastPicked_p6/myfilesys.c:15-69 | A fresh, mounted file system is valid, has no files and no open descriptor. |
| FileSystem.FileSystem.FsOpen | TeamLastPicked_p6/myfilesys.c:115-163 | Fails exactly on a long name, a missing name or no free descriptor; otherwise opens the first slot with that name at offset 0 in the lowest free descriptor, changing nothing else; the invariant holds afterwards if and only if that slot is used. |
| FileSystem.FileSystem.FsClose | TeamLastPicked_p6/myfilesys.c:171-184 | Closes that descriptor only; fails exactly when it was closed. |
| FileSystem.FileSystem.FsCreate | TeamLastPicked_p6/myfilesys.c:187-228 | Fails exactly on a long name, a name among the first 32 slots or a full table; otherwise appends an empty file to the list. |
| FileSystem.FileSystem.FsDelete | TeamLastPicked_p6/myfilesys.c:231-286 | Fails exactly when the name is missing or open; otherwise removes that file from the list, leaving the lower half of the disk (with the stored table) alone, and every open descriptor still denotes the same name and bytes at the same offset. Deleting a name only a free slot carries changes nothing. |
| FileSystem.FileSystem.DeleteSlot | TeamLastPicked_p6/myfilesys.c:249-277 | The disk, the table and the descriptors after the deletion of one slot. |
| FileSystem.FileSystem.MoveSlotsDown | TeamLastPicked_p6/myfilesys.c:260-270 | Later slots move down one place and the last slot becomes free. |
| FileSystem.FileSystem.LayOutFrom | TeamLastPicked_p6/myfilesys.c:272-276 | Laying out the slots from one on makes the whole used prefix contiguous again. |
| FileSystem.FileSystem.FsRead | TeamLastPicked_p6/myfilesys.c:289-334 | Returns the bytes of the file from the offset on, as many as requested and available, and advances the offset by them. |
| FileSystem.FileSystem.FsWrite | TeamLastPicked_p6/myfilesys.c:337-396 | Refuses exactly to outgrow a file that another follows; otherwise the exact disk image, file size (the larger of the old one and the end of the data) and offset, with every other slot and the lower half of the disk unchanged; the invariant holds afterwards if and only if the data end on the disk. |
| FileSystem.FileSystem.CopyIn | TeamLastPicked_p6/myfilesys.c:367-387 | The block loop writes the data across any number of blocks and nothing else but the residue of the first. |
| FileSystem.FileSystem.FsGetFilesize | TeamLastPicked_p6/myfilesys.c:404-412 | The length of the open file's bytes, or -1. |
| FileSystem.FileSystem.FsLseek | TeamLastPicked_p6/myfilesys.c:420-439 | Fails exactly on a closed descriptor or an offset past the end; the descriptor stays valid if and only if the offset is not negative. |
| FileSystem.FileSystem.FsTruncate | TeamLastPicked_p6/myfilesys.c:448-484 | When it fails, and otherwise the exact disk image, sizes, names and slot positions, an offset of at most the new length, and an unchanged lower half of the disk; the invariant holds afterwards if and only if the layout is kept and no other descriptor of the file is past its new end. |
| FileSystem.FileSystem.Resize | TeamLastPicked_p6/myfilesys.c:476-479 | The table after the new size is set and the slots from the descriptor's number up to 62 are laid out again. |
| FileTruncate.TruncatedStart | TeamLastPicked_p6/myfilesys.c:477-479 | A later slot moves by the bytes the file lost if the layout began at most one past the file's slot and the slot is not the last; every other slot stays. |
| FileTruncate.TruncatedLayoutIff | TeamLastPicked_p6/myfilesys.c:477-479 | The files are still contiguous if and only if nothing was cut off, nothing follows, or the layout began early enough and reached every file. |
| FileTruncate.OtherKeptIff | TeamLastPicked_p6/myfilesys.c:467-479 | Another file is found unchanged on every disk if and only if it comes before the truncated one, is empty, or moves by the number of bytes cut. |
| FileTruncate.TruncatesFileIff | TeamLastPicked_p6/myfilesys.c:441-484 | Where the layout survives, the list of files changes by that one file's lost tail only, on every disk, if and only if no later file has bytes or as many bytes were cut as the file lost. |
| FileTruncate.PrefixKept | TeamLastPicked_p6/myfilesys.c:467-476 | The truncated file keeps its first bytes. |
| FileSystem.FileSystem.FillBlockAndOffset | TeamLastPicked_p6/myfilesys.c:489-511 | Slot i starts where slot i - 1 ends, with an offset of at most the block size. |
| FileSystem.WriteFitting | TeamLastPicked_p6/myfilesys.c:337-396 | `fs_write` seen on the list of files. |
| FileSystem.WriteSeekRead | TeamLastPicked_p6/myfilesys.c:289-439 | Writing, seeking back and reading returns the bytes written, across any block boundaries. |
| FileSystem.SameFileAfterRemoval | TeamLastPicked_p6/myfilesys.c:252-259 | A renumbered descriptor denotes the same name and bytes as before. |
| FileDefects.OverwriteDamagesNeighbour | TeamLastPicked_p6/testDisk.c:328-337 | Overwriting one of two files in a block does not always keep the other. |
| FileDefects.CreateKeepsNames | TeamLastPicked_p6/myfilesys.c:194-202 | A creation keeps names distinct if and only if it is refused or no slot beyond the scanned ones carries the name; with at most 32 files it always does. |
| FileDefects.CreateDuplicate | TeamLastPicked_p6/myfilesys.c:194-202 | With more than 32 files and a free slot, creating the name of slot 32 succeeds and makes a duplicate. |
| FileDefects.ThirtyThreeFiles | TeamLastPicked_p6/myfilesys.c:187-228 | Such a state is reached by 33 creations on a fresh file system. |
| FileDefects.TruncateEarly | TeamLastPicked_p6/testDisk.c:342-363 | Through descriptor 0 or 1, truncating the first of two files from 5 bytes to 3 shortens that file and changes nothing else. |
| FileDefects.TruncateLate | TeamLastPicked_p6/myfilesys.c:467-479 | Through descriptor 2, the same truncation leaves the second file's slot in place, slides its bytes left by two and breaks the invariant. |
| SchedInvariant.AlwaysInv | TeamLastPicked_p4/scheduler.c:33-90 | Every schedule keeps the queue, loop, slot, token, counter and position invariants. |
| SchedInvariant.SingleToken | TeamLastPicked_p4/sched_impl.c:90-104 | Pending exec posts, the pending cpu_sem post, running workers and the scheduler in control add up to one. |
| SchedInvariant.SlotConservation | TeamLastPicked_p4/sched_impl.c:60-84 | Free slots, queue length, admitted and removed workers add up to the queue size, which bounds the queue. |
| SchedInvariant.RemovalIsExclusive | TeamLastPicked_p4/sched_impl.c:73-84 | While a worker may leave the queue or touch the counters, the scheduler waits for that worker and no other runs. |
| SchedInvariant.WalkNeverNull | TeamLastPicked_p4/sched_impl.c:194-227 | The round-robin walk follows existing links only and ends on the element at currentPosition, despite tail insertions. |
| SchedInvariant.HolderPosition | TeamLastPicked_p4/sched_impl.c:73-84 | The worker being served sits at currentPosition - 1 until it removes itself. |
| SchedRoundRobin.ServeFair | TeamLastPicked_p4/sched_impl.c:194-227 | Choosing the next index keeps every earlier pair of dispatches fair. |
| SchedRoundRobin.LeaveRounds | TeamLastPicked_p4/sched_impl.c:73-84 | A departure in mid-round disturbs nobody's turn. |
| SchedRoundRobin.InsertRounds | TeamLastPicked_p4/sched_impl.c:60-68 | Nor does an arrival at the tail. |
| SchedRoundRobin.RoundRobinFair | TeamLastPicked_p4/sched_impl.c:194-227 | Between two consecutive dispatches of a worker, any other is dispatched at most once, and exactly once if queued at both. |
| SchedFifo.FifoOrder | TeamLastPicked_p4/sched_impl.c:178-189 | Dispatch j goes to worker j / (iterations + 1) in insertion order, and workers leave in insertion order. |
| SchedProgress.NeverStuck | TeamLastPicked_p4/scheduler.c:66-90 | Every reachable state before the end has an enabled step that is not an idle spin. |
| SchedProgress.StepSpends | TeamLastPicked_p4/scheduler.c:33-90 | Every step but an idle spin decreases the work left; an idle spin changes nothing. |
| SchedProgress.BusyStepsBounded | TeamLastPicked_p4/scheduler.c:33-90 | An explicit bound on the steps of any run that are not idle spins. |
| SchedProgress.CanFinish | TeamLastPicked_p4/scheduler.c:76-87 | From every reachable state the scheduler can come to its end. |
| SchedProgress.FinishesIff | TeamLastPicked_p4/scheduler.c:66-90 | Some run completes if and only if there is a thread and a slot. |
| SchedProgress.CompleteRun | TeamLastPicked_p4/scheduler.c:33-90 | A complete run dispatches each worker exactly iterations + 1 times, all workers have exited, the queue is empty and all slots are free. |
| SchedAdmission.EntersIff | TeamLastPicked_p4/sched_impl.c:60-68 | In every run, a worker may enter if and only if queued workers and workers on their way in or out leave a slot. |
| SchedAdmission.Inserts | TeamLastPicked_p4/sched_impl.c:60-68 | A worker let in can join the tail of the queue whatever the scheduler is doing. |
| SchedAdmission.WakesIff | TeamLastPicked_p4/sched_impl.c:90-104 | A queued worker can go on if and only if the scheduler has chosen it and not got the cpu back. |
| SchedAdmission.SchedulesIff | TeamLastPicked_p4/scheduler.c:66-90 | The scheduler waits for nothing but the worker it has chosen, until its end. |
| SchedAdmission.CreatesIff | TeamLastPicked_p4/scheduler.c:110-145 | The main thread can go on if and only if some worker is not created yet. |
| SchedAdmission.HistoriesRecord | TeamLastPicked_p4/sched_impl.c:60-227 | The history variables record exactly who joins the queue, who leaves it and every choice with the queue chosen from. |
| SchedAdmission.FullQueueReachable | TeamLastPicked_p4/sched_impl.c:60-68 | Some run has as many workers queued at once as there are threads and slots for. |
| SchedQueue.Queue.FifoNextWorker | TeamLastPicked_p4/sched_impl.c:178-189 | The datum at the head of the list, or none. |
| SchedQueue.Queue.RrNextWorker | TeamLastPicked_p4/sched_impl.c:194-227 | The walk on the real list chooses the element at the (wrapped) position and advances it. |
| SchedQueue.RrRefines | TeamLastPicked_p4/sched_impl.c:194-227 | Without interference the small steps of the transition system choose what the method chooses. |
| LinkedList.List.Size | TeamLastPicked_p4/list.c:11-18 | The number of elements. |
| LinkedList.List.GetHead | TeamLastPicked_p4/list.c:56-59 | The first element, or null. |
| LinkedList.List.GetTail | TeamLastPicked_p4/list.c:61-64 | The last element, or null. |
| LinkedList.List.InsertHead | TeamLastPicked_p4/list.c:28-40 | Prepends, with all links consistent. |
| LinkedList.List.InsertTail | TeamLastPicked_p4/list.c:42-54 | Appends, with all links consistent. |
| LinkedList.List.RemoveElem | TeamLastPicked_p4/list.c:66-79 | Deletes that position, with all links consistent and the element's own links cleared; an unlinked element that is not in the list changes nothing. |
| MemBlocks.PlacementCorrect | TeamLastPicked_p5/mymem.c:113-202 | First takes the lowest-address fit, Best the earliest smallest, Worst the earliest largest, Next the first in cyclic order after the last allocated. |
| MemBlocks.ChoiceIsRight | TeamLastPicked_p5/mymem.c:113-202 | The same as an if and only if: a strategy chooses a block exactly when it has one to take, and then the right one. |
| MemBlocks.SucceedIff | TeamLastPicked_p5/mymem.c:118-173 | First, Best and Worst fail exactly when the largest free block is too small. |
| MemBlocks.NextFailsIff | TeamLastPicked_p5/mymem.c:174-201 | Next fails exactly when no block other than the last allocated fits. |
| MemBlocks.LargestFreeIsMax | TeamLastPicked_p5/mymem.c:380-402 | A request fits somewhere if and only if the largest free block is large enough. |
| MemState.MallocPlaces | TeamLastPicked_p5/mymem.c:102-234 | The pointer returned is that of the block the strategy set by initmem asks for; NULL exactly when it has none to take. |
| MemState.MallocRemembers | TeamLastPicked_p5/mymem.c:229-233 | A granted call leaves last_allocated on the block returned, a refused one changes nothing. |
| MemState.FreeRemembers | TeamLastPicked_p5/mymem.c:237-304 | Freeing a live allocation leaves last_allocated on the free block that now contains its address; freeing anything else changes nothing. |
| MemState.LastIsTouched | TeamLastPicked_p5/mymem.c:102-304 | In every run, last_allocated is the block holding the address last returned or freed. |
| MemState.NextFitOverRuns | TeamLastPicked_p5/mymem.c:174-201 | In every run, Next-fit takes the first fit cyclically after the one block holding that address, and never that block. |
| MemState.FreeUndoesMalloc | TeamLastPicked_p5/mymem.c:211-288 | Freeing the block just placed restores the exact sequence of blocks. |
| MemState.FreeAfterMalloc | TeamLastPicked_p5/mymem.c:211-288 | The same for the pointer returned by a call. |
| MemState.StepInv | TeamLastPicked_p5/mymem.c:53-304 | Every legal call keeps the pool tiled by coalesced blocks, non-empty unless the pool is, and last_allocated on the list. |
| NextSearch.SearchEndsIff | TeamLastPicked_p5/mymem.c:174-201 | The step-by-step search ends after some number of rounds if and only if it started at a block of the list or some block fits. |
| NextSearch.SearchOutcome | TeamLastPicked_p5/mymem.c:174-201 | Whenever it ends, it ends with the block that Next-fit is said to choose, and it gives up only at the block it started from. |
| MemState.FirstSearchEndsIff | TeamLastPicked_p5/mymem.c:174-201 | In any state after `initmem` and before an allocation, the search ends if and only if the request is no larger than the pool. |
| MemState.RunInv | TeamLastPicked_p5/mymem.c:53-304 | The same in every reachable state, with live allocations disjoint. |
| MemState.LiveRefines | TeamLastPicked_p5/mymem.c:102-304 | Each call acts on the live allocations as on an abstract map from address to size, and new addresses are not live. |
| MemState.LivePersists | TeamLastPicked_p5/mymem.c:102-304 | A live allocation keeps its address and size over any later calls until freed. |
| MemState.NextFitStarves | TeamLastPicked_p5/mymem.c:174-201 | After one allocation and its release, Next-fit refuses every request on a free pool. |
| MemState.UsedBytesAreLive | TeamLastPicked_p5/mymem.c:336-355 | The allocated bytes are the total size of the live allocations. |
| MemState.HolesAreFree | TeamLastPicked_p5/mymem.c:313-333 | The holes are the free blocks. |
| MemState.Conservation | TeamLastPicked_p5/mymem.c:313-377 | Allocated and free bytes add up to the pool, and coalescing bounds the number of holes. |
| Allocator.Allocator.InitMem | TeamLastPicked_p5/mymem.c:53-94 | The given strategy and size, one free block covering the pool on a fresh list, and no block last allocated. |
| Allocator.Allocator.Malloc | TeamLastPicked_p5/mymem.c:102-234 | The list, last_allocated and the pointer returned are those of the value-level call; the pointer is that of the block the strategy asks for, NULL only without one, and that block is the one last allocated. |
| Allocator.Allocator.Free | TeamLastPicked_p5/mymem.c:237-304 | The same for `myfree`; the block last allocated is then the free one containing the address, and for an unknown or already free address nothing changes. |
| Allocator.Allocator.FindFirst | TeamLastPicked_p5/mymem.c:118-133 | The loop stops at the first fit. |
| Allocator.Allocator.FindBest | TeamLastPicked_p5/mymem.c:134-153 | The loop ends with the best fit. |
| Allocator.Allocator.FindWorst | TeamLastPicked_p5/mymem.c:154-173 | The loop ends with the worst fit. |
| Allocator.Allocator.FindNext | TeamLastPicked_p5/mymem.c:174-201 | The cyclic loop terminates with the next fit, or NULL. |
| Allocator.Allocator.InsertIntoList | TeamLastPicked_p5/mymem.c:455-488 | Links a new node at its position, all links consistent. |
| Allocator.Allocator.RemoveFromList | TeamLastPicked_p5/mymem.c:494-517 | Unlinks one node, all links consistent. |
| Allocator.Allocator.CoalescePrev | TeamLastPicked_p5/mymem.c:257-272 | Merges with a free predecessor, and says which node survives. |
| Allocator.Allocator.CoalesceNext | TeamLastPicked_p5/mymem.c:273-286 | Merges with a free successor. |
| Allocator.Allocator.MemHoles | TeamLastPicked_p5/mymem.c:313-333 | The number of free blocks, counted as positions. |
| Allocator.Allocator.MemAllocated | TeamLastPicked_p5/mymem.c:336-355 | The total size of the live allocations. |
| Allocator.Allocator.MemFree | TeamLastPicked_p5/mymem.c:358-377 | The pool size less that total. |
| Allocator.Allocator.MemLargestFree | TeamLastPicked_p5/mymem.c:380-402 | The size of the largest free block. |
| Allocator.MallocThenFree | TeamLastPicked_p5/mymem.c:102-304 | On the real list, freeing at once restores the blocks. |
| Buffer.InitializeBuffer | TeamLastPicked_p3/buffer.c:38-43 | An empty, packed buffer. |
| Buffer.Push | TeamLastPicked_p3/buffer.c:51-67 | All items shift right and the new one comes first. |
| Buffer.Pop | TeamLastPicked_p3/buffer.c:75-93 | Returns the first item; the others shift left. |
| Buffer.Enqueue | TeamLastPicked_p3/buffer.c:101-117 | Stores in the first empty cell, or overwrites the last cell if none is empty. |
| Buffer.Dequeue | TeamLastPicked_p3/buffer.c:124-128 | The same as popping. |
| Buffer.CountItems | TeamLastPicked_p3/buffer.c:136-145 | The index of the first empty cell. |
| Buffer.PushContents | TeamLastPicked_p3/buffer.c:51-67 | On a packed buffer that is not full, pushing prepends to the items. |
| Buffer.EnqueueContents | TeamLastPicked_p3/buffer.c:101-117 | Enqueueing appends to them. |
| Buffer.PopContents | TeamLastPicked_p3/buffer.c:75-93 | Popping removes the first of them. |
| ProducerConsumer.CriticalSection | TeamLastPicked_p3/p3.c:161-211 | On the real buffer, a producer puts its item unless the buffer is full and a consumer takes the first unless it is empty, with the items that leaves; the same as the step of the transition system. |
| ProducerConsumer.ActsExactly | TeamLastPicked_p3/p3.c:161-211 | In every run, a thread that acts puts exactly when there is room, takes the first item exactly when there is one, and otherwise changes nothing. |
| ProducerConsumer.NeverBlockedIff | TeamLastPicked_p3/p3.c:153-220 | A thread can take a step if and only if no other is inside. |
| ProducerConsumer.WholeTurn | TeamLastPicked_p3/p3.c:153-220 | Whenever no thread is inside, each can go through its critical section and put or take its item. |
| ProducerConsumer.MutualExclusion | TeamLastPicked_p3/p3.c:153-220 | At most one thread is between sem_wait and sem_post. |
| ProducerConsumer.FifoHistory | TeamLastPicked_p3/p3.c:153-220 | In every run the items produced are those consumed, in order, followed by the buffer. |
| ProducerConsumer.FiloHistory | TeamLastPicked_p3/p3.c:153-220 | In every run they agree as multisets, and each item taken was the newest not yet consumed. |

## Left out

- Host file handling (`make_disk`, `open_disk`, `close_disk`, failing host reads and writes): the disk is open and its file behaves.
- The byte layout of the table in block 0 and its survival over `unmount_fs` and `mount_fs`: a copy of C structures.
- Failing calls of malloc, in all four programs.
- FileSystem.FileSystem.FsDelete: excludes a name that only a free slot with offset 0 carries (the empty name), where the shift by -1 copies from in front of a buffer.
- FileSystem.FileSystem.FsTruncate: excludes length 0 on a file with offset 0, for the same reason.
- Thread creation failure, joining, `usleep`, `clean_up`, printing, `dummy_impl.c` and weak-memory effects of the scheduler.
- Races inside `list_insert_tail` and `list_remove_elem` when two threads call them at once: each is one step of the model.
- Freeing of nodes and pools by `initmem` and `removeFromList`: the old objects become unreachable instead.
- `mem_is_alloc`, strategy names and `mem_small_free`, which counts blocks of at most the given size although its comment says smaller.
- Allocator.Allocator.Malloc: excludes requests of 0 bytes, as the source's comment does, calls before a strategy is set, and a first Next-fit request larger than the pool, whose search never ends (MemState.FirstSearchEndsIff).
- Allocator.Allocator.FindNext: excludes a search from the raw pool without a fit, which never ends (NextSearch.SearchEndsIff).
- The 300 seconds, the random delays and the program arguments of `p3.c`; a producer's item is any number but -1.
- The shells of `TeamLastPicked_p2` and `lstuyves_p3_shell`: process plumbing with a simple tokenizer.
