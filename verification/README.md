# Verified model of BUENOS

BUENOS is a small teaching kernel for MIPS. This project models its self-contained data
structures and protocols in Dafny and proves what they are for. `dafny verify dfyconfig.toml`
checks all of it.

The fixed sizes of the source (threads, hash slots, heap size, table sizes) are parameters, so
the statements range over all sizes. The block size of the filesystem, the directory and inode
capacity and the name length are the source's constants, because they are part of the disk
format.

Code that updates tables and buffers in place is modelled by classes over arrays, and each
method is proved against a function of the old state. The functions' own properties, and what
holds over whole runs, are lemmas. Protocols are step systems: one step is what a processor or
thread does while it holds one lock, and the steps of all processors and threads interleave
freely.

* **Words and bitmaps** (`Words`, `Memory`, `Bitmap`): 32-bit words in big-endian byte memory,
  and the kernel's word-skipping bitmap search.
* **Trivial Filesystem** (`DiskFormat`, `TfsImage`, `ImageDecoding`, `TfsEffects`, `Allocation`,
  `TfsOperations`, `TfsDriver`, `TfsTool`, `TfsRoundTrips`, `TfsSpace`, `TfsRuns`): a disk image
  is an array of 512-byte blocks. `ImageDecoding.Decode` reads it, `TfsImage.View` is the map from names to
  contents that it encodes, and `TfsImage.Valid` is the invariant: names are unique, every
  inode and data block belongs to one file, and the allocation bits are exactly the system
  blocks and the owned blocks. The kernel's driver and the host tool are two implementations
  that both refine the map.
* **Threads, sleep queue, semaphores**: `Threads` has the operations on abstract queues.
  `Kernel` is the step system of several processors, `KernelInvariant` and `KernelSteps` its
  invariant, and `KernelRuns`, `FifoOrder`, `WakeUps`, `WakeAllRuns`, `ThreadStates`,
  `SemaphoreRuns`, `KernelCalls` the theorems about runs. `IntrusiveLists` and `ThreadTables` are the thread
  table with its ready list and hash chains threaded through one `next` field, `KernelOnTable`
  performs every step of the step system on that table, and `Semaphores` is the table on top.
* **User heap** (`HeapTiles`, `HeapLinks`, `HeapRequests`, `HeapAllocator`, `HeapRuns`): `malloc`
  and `free`.
* **Processes** (`Processes`, `ProcessRuns`, `ProcessTables`): spawn, join and exit.
* **Virtual filesystem** (`VfsPath`, `Vfs`, `VfsRuns`, `VfsEffects`, `VfsTables`): path parsing,
  mounting, open files and the shutdown protocol.
* **Page pool, page table, sockets, disk driver** (`PagePools`, `PageTables`, `Sockets`,
  `DiskDriver`).

Where code and documentation differ, the model follows the code:

* `stringcopy` is documented to fill the rest of the target with zeros, but its inner loop never
  advances the target, so only one terminator is written (lib/libc.c:143-166).
  `Memory.StringCopy` says exactly when the rest is zero all the same, and `Memory.PaddingFails`
  is a copy after which it is not.
* The claim that no thread has `sleeps_on == r` once `sleepq_wake_all(r)` is over fails for a
  thread that has written the field but not yet taken the queue's lock.
  `WakeUps.SleepsOnMaySurviveWakeAll` is such a run. `WakeAllRuns.WakeAllLeavesNobody` says when
  the claim holds: exactly if no thread was on its way into the queue when the call began and
  none set out before it was over. `WakeAllRuns.WakeAllUnderLock` shows that a lock of the
  callers is enough if the waker still holds it when the call is over. The terminal driver wakes
  the readers after it has released its lock (drivers/tty.c:181-182), so this does not cover it;
  for the writers it wakes inside the lock (drivers/tty.c:154-157).
* The size test of `malloc` uses signed 32-bit differences, and for the seven greatest sizes the
  rounded request with its header wraps around to 0 or 4 bytes. `HeapRequests.ChoosesWellExactly` says for which requests `malloc`
  does first fit all the same. For every other request `HeapAllocator.Heap.Malloc` hands out a
  block although none is big enough, and `HeapAllocator.WrappedRequestTears` is such a request,
  after which no row of blocks describes the heap.
* Mount points may have 15 characters, and any characters, but the parser of path names accepts
  only volume names of at most 14 characters without a closing bracket
  (`VfsPath.NameableExactly`).
* `vfs_mount` is documented to refuse a second mount under the same name, but unmounting leaves
  the name in its row, so a name that is not mounted any more is refused as well, until another
  mount takes the row (`VfsEffects.MountOutcome`, `VfsEffects.RemountRefused`).
* A kernel that reserves no page could hand out page 0, whose address also means that there is
  no page (`PagePools.PagePool.GetPhysPage`).

In one place the model does not follow the code: the loops over the process table in
proc/process.c:70 and proc/process.c:83 run one entry past the table, and the model has the
strict bound.

## Model

| member | source | states |
|---|---|---|
| `Words.SetBitOnly` | lib/bitmap.c:112-129 | or-ing a shifted one or and-ing its complement changes that bit of a word and no other |
| `Words.FullWord` | lib/bitmap.c:150-153 | a word differs from 0xffffffff exactly if one of its 32 bits is zero |
| `Words.StoredWord` | lib/bitmap.c:112-129 | a word stored at a place in byte memory is read back from there, and the other words stay |
| `Memory.MemCopy` | lib/libc.c:180-217 | the target range holds what the source range held, also within one array, and every other byte of the target is unchanged |
| `Memory.StringCopy` | lib/libc.c:143-166 | at most buflen - 1 characters and one terminator are written and nothing behind it; the rest ends up zero exactly if the source fills the buffer or it was zero before |
| `Memory.PaddingFails` | lib/libc.c:150-158 | copying the empty string over three bytes that are not zero leaves two of them |
| `Bitmap.SizeOf` | lib/bitmap.c:57-60 | whole words, enough for the bits, with less than a word to spare |
| `Bitmap.Init` | lib/bitmap.c:70-78 | all bits of the map are zero and the memory behind the map is unchanged |
| `Bitmap.Get` | lib/bitmap.c:89-100 | returns the bit |
| `Bitmap.Set` | lib/bitmap.c:112-129 | the bits are the old ones with exactly this one replaced |
| `Bitmap.SetBitExact` | lib/bitmap.c:112-129 | writing one bit of the big-endian words changes that bit and no other of the whole map |
| `Bitmap.FindInWord` | lib/bitmap.c:155-168 | the search inside the first word with a zero bit finds and sets the least zero bit below the limit, or changes nothing |
| `Bitmap.FindAndSet` | lib/bitmap.c:142-173 | skipping full words still finds the least zero bit among the first l, sets it alone, and gives -1 exactly if all l are set |
| `Bitmap.FindsFirstZeroIsUnique` | lib/bitmap.c:142-173 | "find the first zero and set it" has one possible result and one possible new map |
| `Bitmap.BitsDetermineBytes` | lib/bitmap.c:89-129 | two bitmaps with the same bits are the same bytes |
| `Bitmap.BitInByte` | lib/bitmap.c:89-129 | on this big-endian machine each group of four bytes holds 32 bits, the lowest eight of them in the last byte |
| `Bitmap.FreeCountAfterSet` | lib/bitmap.c:112-129 | setting or clearing a bit changes the number of zero bits by exactly one, or not at all if it had that value |
| `Bitmap.FreeCountZero` | fs/tfs.c:793-819 | the count of zero bits is zero exactly if all bits are set |
| `TfsImage.FoundAt` | fs/tfs.c:214-244 | with valid names the directory search for a name finds the one entry that has it |
| `TfsEffects.OwnersDiffer` | fs/tfs.c:311-361 | a block is owned by at most one file |
| `TfsEffects.AddsKeepsValid` | fs/tfs.c:311-398 | entering a file on blocks that were free keeps the allocation invariant and all block ownership disjoint |
| `TfsEffects.AddsOneFile` | fs/tfs.c:278-411 | such a change adds exactly one name with the new file's bytes to the map, and keeps every other name's directory entry |
| `TfsEffects.RemovesKeepsValid` | fs/tfs.c:479-504 | erasing an entry and clearing exactly its blocks' bits keeps the allocation invariant |
| `TfsEffects.RemovesOneFile` | fs/tfs.c:423-513 | such a change removes exactly one name from the map |
| `TfsEffects.RewritesOneFile` | fs/tfs.c:651-782 | changing only data blocks of one file changes only that name's bytes in the map |
| `TfsEffects.FreeBlocksDoNotMatter` | util/tfstool.c:245-336 | images that differ only in free blocks encode the same map and are equally valid |
| `TfsEffects.SameFilesSameBits` | fs/tfs.c:423-513 | valid images with the same files at the same blocks have the same allocation bits |
| `Allocation.TakesCount` | fs/tfs.c:311-361 | taking distinct free blocks lowers the free count by their number |
| `Allocation.AddsCost` | fs/tfs.c:311-361 | a new file costs exactly its listed blocks plus one |
| `Allocation.RemovesGain` | fs/tfs.c:479-489 | a removal frees exactly the listed blocks plus one |
| `Allocation.AllocatedAre` | fs/tfs.c:311-361 | the set bits below the total are exactly 0, 1, 2 and the owned blocks, all distinct |
| `Allocation.SpaceAccounting` | fs/tfs.c:793-819 | free blocks, the three system blocks and the owned blocks make up the disk |
| `TfsOperations.SpanSplit` | fs/tfs.c:564-628 | the first, middle and last blocks of a byte range: their indices and lengths add up and lie inside the inode |
| `TfsOperations.Written` | fs/tfs.c:684-778 | patching the listed blocks of one file splices its bytes and leaves every other file and all metadata alone |
| `TfsOperations.Removed` | fs/tfs.c:479-504 | what the writes of a removal do to the image is the removal of one file |
| `TfsOperations.Added` | fs/tfs.c:373-398 | what the writes of a creation do to the image is the addition of one file |
| `TfsOperations.OneNamePerFile` | fs/tfs.c:214-244 | two names never share an inode |
| `TfsDriver.Init` | fs/tfs.c:90-174 | the driver is set up exactly if the block size is right, a semaphore and a page can be had and the header block holds the magic number; otherwise nothing it took stays taken |
| `TfsDriver.Tfs.Open` | fs/tfs.c:214-244 | gives the inode number of the file with the name, whose bytes are the map's, or NOT_FOUND exactly if no file has it |
| `TfsDriver.LeastCover` | fs/tfs.c:283-289 | n blocks of 512 bytes hold a file exactly if n is at least the number of data blocks that create takes |
| `TfsDriver.Tfs.Create` | fs/tfs.c:278-411 | succeeds exactly if the file has at most 65024 bytes, the name is new, a slot is unused, and the free blocks less one for the inode hold the bytes; then the map gains the name with zeros, and the free blocks become fewer by one and by the least number of blocks that hold the bytes; a refused create writes nothing |
| `TfsDriver.Tfs.Remove` | fs/tfs.c:423-513 | succeeds exactly if the name exists; the map loses it and the blocks become free; else the disk is unchanged |
| `TfsDriver.Tfs.Read` | fs/tfs.c:531-632 | returns exactly the slice of the file from the offset, of length min(bufsize, filesize - offset), or an error exactly for a bad id or offset |
| `TfsDriver.Tfs.Write` | fs/tfs.c:651-782 | replaces exactly that slice of the file; directory, allocation bits and every other file stay |
| `TfsDriver.Tfs.GetFree` | fs/tfs.c:793-819 | the number of zero bits below the total, times the block size |
| `TfsTool.NetworkLoad` | util/tfstool.c:621-630 | on either byte order the host's swap reads a disk word as the kernel does |
| `TfsTool.NetworkStore` | util/tfstool.c:642-658 | on either byte order the host's swap stores the bytes the kernel would store |
| `TfsTool.BitmapFindAndSet` | util/tfstool.c:670-685 | the bit-by-bit search finds and sets the first zero bit of the same map |
| `TfsTool.SearchesAgree` | util/tfstool.c:670-685 | on the same bytes the kernel's and the tool's search give the same result and leave the same bytes |
| `TfsTool.CreateVolume` | util/tfstool.c:164-220 | a volume of at least three blocks, with the magic number, that is a valid empty image |
| `TfsTool.ToolBlocksSpare` | util/tfstool.c:283-297 | a stored file lists the fewest blocks that leave a byte to spare, or 127 if it is as long as can be |
| `TfsTool.Write` | util/tfstool.c:224-336 | stores a file exactly if its name is new and valid, a slot is unused, it is short enough and there is room; a failed store changes only free blocks |
| `TfsTool.Read` | util/tfstool.c:340-399 | gives the bytes of the file, or nothing exactly if the name is not there |
| `TfsTool.Delete` | util/tfstool.c:441-500 | removes exactly one name from the map and frees its blocks, exactly if the name exists |
| `TfsRoundTrips.CreateThenRead` | fs/tfs.c:278-411 | a new file reads as zeros of the requested size |
| `TfsRoundTrips.CreateThenRemove` | fs/tfs.c:423-513 | creating and removing a file restores the map, the directory names and every allocation bit |
| `TfsRoundTrips.SpliceSlice` | fs/tfs.c:738-776 | a write makes the slice from the offset the data, and keeps every byte outside and the size |
| `TfsRoundTrips.WriteThenRead` | fs/tfs.c:651-782 | what is written is read back |
| `TfsRoundTrips.StoreThenReadByTool` | util/tfstool.c:340-399 | a stored file comes back byte for byte from the tool |
| `TfsRoundTrips.StoreThenReadByKernel` | fs/tfs.c:531-632 | a file stored by the tool comes back byte for byte from the kernel's mount, open and read |
| `TfsRoundTrips.MakeStoreMountRead` | util/tfstool.c:164-336 | making a volume, storing a file, mounting the volume and reading the file gives the file back, exactly if the new volume has room for it |
| `TfsRoundTrips.CreateVolumeThenMount` | fs/tfs.c:90-174 | the kernel accepts a volume made by the tool, as an empty filesystem |
| `TfsSpace.CostWithout` | fs/tfs.c:311-361 | the blocks that a map of files takes add up file by file in any order |
| `TfsSpace.SlotsLeft` | fs/tfs.c:278-303 | a directory slot is unused exactly if the map has fewer names than there are slots |
| `TfsSpace.CanCreateIfRoom` | fs/tfs.c:278-361 | where files list only the blocks they need, a create succeeds exactly if the map has room: the name is new, there are fewer than 25 names, the file has at most 65024 bytes, and the least numbers of blocks that hold the files, with an inode block for each, fit into the total less three |
| `TfsRuns.Perform` | fs/tfs.c:278-782 | each operation does to the image what it does to a finite map, and succeeds exactly when the map says so |
| `TfsRuns.Run` | fs/tfs.c:278-782 | after any sequence of creates, removes and writes the image holds what the successful ones, applied in order, leave in the map; on a volume that was empty the map alone decides which of them succeed |
| `KernelSteps.StepKeeps` | kernel/sleepq.c:99-197 | every locked step of every processor keeps the invariant of threads, queues, locks and semaphores |
| `KernelSteps.RescheduleKeeps` | kernel/scheduler.c:186-218 | switching threads keeps it, whether the old thread dies, sleeps, was woken early, or is just preempted |
| `KernelSteps.RescheduleQueues` | kernel/scheduler.c:196-211 | exactly which threads are ready and which are on a processor after a switch |
| `KernelSteps.VPicks` | kernel/semaphore.c:178-180 | a V that must wake finds a waiter, and it is one that no V has picked before |
| `KernelSteps.BlockingBooks` | kernel/semaphore.c:149-152 | the semaphore's books stay right when a P makes the value negative |
| `KernelRuns.Reachable` | kernel/scheduler.c:186-218 | the invariant holds in every state of every interleaving of the processors |
| `KernelCalls.QueuesStayApart` | kernel/scheduler.c:83-102 | in every reachable state no thread is on the ready list and in the sleep queue, or twice in one of them |
| `KernelCalls.StepsMeetRequires` | kernel/scheduler.c:114-139 | the scheduler's assertions hold in every reachable state, and no step touches the link of a queued thread it does not own |
| `KernelOnTable.LinksAfter` | kernel/sleepq.c:111-135 | whatever the other processors do, a thread between the two parts of sleepq_add keeps its cleared link |
| `KernelOnTable.LocalsAfter` | kernel/sleepq.c:206-263 | whatever the other processors do between two wake-ups of wake-all, its position in the chain stays right |
| `KernelOnTable.Cpus.Perform` | kernel/sleepq.c:99-263 | each step of each processor, performed by the code on the arrays, does what the step system says and keeps the table well formed |
| `KernelOnTable.PerformRun` | kernel/sleepq.c:99-263 | in every interleaving the table the steps are performed on stays well formed and holds the step system's state |
| `FifoOrder.FirstWaiterIsOldest` | kernel/sleepq.c:162-180 | the first entry of the chain that waits for r is the oldest waiter for r |
| `FifoOrder.RemoveOther` | kernel/sleepq.c:174-180 | taking a waiter for one resource out leaves the queue of every other resource alone |
| `FifoOrder.AddedLast` | kernel/sleepq.c:99-137 | adding a thread puts it last in the queue of its resource, and leaves the queue of every other resource alone |
| `FifoOrder.OldestWoken` | kernel/sleepq.c:148-193 | a wake-up takes the first of its resource's queue and nothing from any other; the thread waits for nothing, and is READY and last on the ready list exactly if it was SLEEPING; without a waiter nothing changes |
| `FifoOrder.AllWoken` | kernel/sleepq.c:206-263 | waking all empties the queue of the resource, leaves every other queue alone, and puts those that were SLEEPING behind the ready list, oldest first |
| `FifoOrder.StepQueue` | kernel/sleepq.c:121-193 | each step appends its thread to one resource's queue, takes the oldest waiter of one, or changes no queue |
| `FifoOrder.WaitersMoveUp` | kernel/sleepq.c:148-197 | over any run the waiters left after some wake-ups on their resource stand at the front in their order |
| `FifoOrder.WaiterIsPicked` | kernel/sleepq.c:148-197 | a waiter with k others before it is the one the (k+1)-th wake-up on its resource wakes |
| `FifoOrder.ReadyMovesUp` | kernel/scheduler.c:83-139 | the ready list is strict first-in first-out over any run |
| `FifoOrder.ReadyIsDispatched` | kernel/scheduler.c:186-218 | a ready thread with k ahead of it gets a processor at the (k+1)-th dispatch, whichever processors dispatch |
| `WakeUps.Placement` | kernel/scheduler.c:196-211 | in every reachable state a started thread that waits for nothing is exactly once on the ready list or on exactly one processor; one that waits is never ready, and is queued exactly once, on its way in, or being woken |
| `WakeUps.NotWokenStays` | kernel/sleepq.c:99-136 | a queued thread that no wake-up picks stays queued and never becomes ready |
| `WakeUps.WokenStaysAwake` | kernel/sleepq.c:182-193 | a wake-up, before or after the thread is switched out, is not lost: until the thread itself prepares to wait again or finishes it is exactly once on the ready list or on exactly one processor |
| `WakeUps.WokenBeforeSwitch` | kernel/scheduler.c:198-205 | a thread woken while still running goes to the ready list at its switch, or straight back to the processor |
| `WakeUps.WakeAllLeavesNone` | kernel/sleepq.c:206-263 | when wake-all lets go of the lock its queue is empty, and sleeps_on names the resource exactly for threads still on their way in |
| `WakeUps.SleepsOnMaySurviveWakeAll` | kernel/sleepq.c:115-119 | a run after which a thread has sleeps_on set to the resource of a finished wake-all |
| `WakeAllRuns.WakeAllMisses` | kernel/sleepq.c:206-263 | a finished wake-all has missed exactly the threads that were between the two parts of sleepq_add when it began, and those that came there before it was over |
| `WakeAllRuns.WakeAllLeavesNobody` | kernel/sleepq.c:206-263 | so it has missed nobody exactly if there were no such threads, which can be told from the run before its end |
| `WakeAllRuns.BusyAlways` | kernel/sleepq.c:148-263 | a processor inside a wake-up or a V does nothing else until it is out of it |
| `WakeAllRuns.AddersHold` | drivers/tty.c:206-213 | if the callers of sleepq_add hold a lock, a thread on its way into the queue runs on the processor that holds the lock |
| `WakeAllRuns.WakeAllUnderLock` | drivers/tty.c:140-157 | if moreover the waker still holds that lock when wake-all is over, nobody is missed |
| `ThreadStates.StateStep` | kernel/thread.c:134-316 | for each state of a slot, exactly the one step that changes it and the state it goes to: FREE to NONREADY by create, NONREADY to READY by start, READY to RUNNING by a switch that finds it first, RUNNING to DYING by its own finish and to SLEEPING or READY by a switch of its processor, SLEEPING to READY by being woken, DYING to FREE by a switch of its processor; no other step changes it |
| `ThreadStates.IdleStep` | kernel/scheduler.c:186-213 | after a switch a processor runs the idle thread exactly if no thread was ready and the thread it leaves cannot go on, and the thread it runs is RUNNING |
| `ThreadStates.FinishedIsFreed` | kernel/scheduler.c:198-199 | over any run, a thread that finished has its slot FREE after the next switch of its processor, in no queue and on no processor, so that thread_create can take it again |
| `SemaphoreRuns.SleepersMatchValue` | kernel/semaphore.c:142-185 | whenever a semaphore's lock is free, nobody sleeps on it if its value is not negative, and exactly -value threads if it is |
| `SemaphoreRuns.CompletedAtMost` | kernel/semaphore.c:142-185 | completed P calls never exceed the initial value plus the V calls; started ones are the completed ones and the blocked threads |
| `SemaphoreRuns.ReturnsOnlyByHandOff` | kernel/semaphore.c:149-153 | a P that blocked returns only after a V has picked its thread as the oldest waiter |
| `SemaphoreRuns.AtMostInitInside` | kernel/semaphore.c:142-185 | if V is only called after P, at most as many threads are inside as the semaphore was created with |
| `SemaphoreRuns.MutualExclusion` | kernel/semaphore.c:142-185 | a semaphore created with 1 lets only one thread in |
| `IntrusiveLists.SearchChain` | kernel/sleepq.c:164-170 | despite hash collisions the search of one chain finds the thread a search of the whole queue would find |
| `IntrusiveLists.LinkChain` | kernel/sleepq.c:125-133 | linking at the end of one chain leaves every chain a -1-terminated list of exactly its waiters |
| `IntrusiveLists.UnlinkHead` | kernel/sleepq.c:174-177 | unlinking the head of a chain keeps all chains well formed |
| `IntrusiveLists.UnlinkInside` | kernel/sleepq.c:178-180 | unlinking from inside a chain keeps all chains well formed |
| `ThreadTables.ThreadTable.constructor` | kernel/thread.c:70-107 | all slots free but the idle thread's, all lists empty |
| `ThreadTables.ThreadTable.AddToReadyList` | kernel/scheduler.c:83-102 | the thread goes to the end of the ready list; the hash chains that share the links stay |
| `ThreadTables.ThreadTable.RemoveFirstReady` | kernel/scheduler.c:114-139 | gives the head of the ready list and removes it, or the idle thread if the list is empty |
| `ThreadTables.ThreadTable.AddReady` | kernel/scheduler.c:151-165 | the thread is READY and last on the ready list |
| `ThreadTables.ThreadTable.Schedule` | kernel/scheduler.c:186-218 | refines the abstract switch of one processor: what it does to each slot is `ThreadStates.StateStep` |
| `ThreadTables.ThreadTable.SleepqAdd` | kernel/sleepq.c:99-136 | refines the append to the abstract queue, through the right hash chain, and leaves the links of all threads in no queue alone but its own |
| `ThreadTables.ThreadTable.LinkCurrent` | kernel/sleepq.c:121-135 | the locked part on its own: the thread goes behind the last one of its chain |
| `ThreadTables.ThreadTable.TakeOldest` | kernel/sleepq.c:164-180 | wake without the part under the thread table's lock: the oldest waiter leaves its chain |
| `ThreadTables.ThreadTable.Search` | kernel/sleepq.c:164-170 | the chain walk stops at the oldest waiter for the resource, or at the end exactly if there is none |
| `ThreadTables.ThreadTable.SleepqWake` | kernel/sleepq.c:148-197 | refines waking the oldest waiter |
| `ThreadTables.ThreadTable.SleepqWakeAll` | kernel/sleepq.c:206-263 | going on behind the woken thread, without searching again from the start, still wakes all waiters, oldest first |
| `ThreadTables.ThreadTable.FindFree` | kernel/thread.c:134-147 | the search gives the free slot nearest to next_tid going round, never the idle thread's, and fails exactly if there is none |
| `ThreadTables.ThreadTable.Create` | kernel/thread.c:121-159 | that slot alone becomes NONREADY, and the next search starts behind it |
| `ThreadTables.ThreadTable.InitSlot` | kernel/thread.c:161-173 | the writes after the lock make the thread wait for nothing and clear its link, and touch no other link |
| `ThreadTables.ThreadTable.Finish` | kernel/thread.c:304-324 | the running thread alone becomes DYING |
| `ThreadTables.SlotDistance` | kernel/thread.c:135-137 | the i-th slot looked at is the one i places behind next_tid, going round the table once, and so at distance i |
| `Semaphores.SemaphoreTable.Create` | kernel/semaphore.c:82-116 | takes the free entry nearest to the rotating index, sets its value, moves the index behind it, and fails exactly if no entry is free |
| `Semaphores.SemaphoreTable.OwnAddress` | kernel/semaphore.c:150-179 | what threads sleep on is the semaphore's own: two semaphores never share it |
| `Semaphores.SemaphoreTable.P` | kernel/semaphore.c:142-158 | lowers the value by one, and exactly if it was not positive puts the thread last among the waiters of this semaphore; the waiters of every other semaphore stay |
| `Semaphores.SemaphoreTable.V` | kernel/semaphore.c:171-185 | raises the value by one, and exactly if it was negative takes the oldest waiter of this semaphore, which then waits for nothing and, if it was SLEEPING, is last on the ready list; the waiters of every other semaphore stay |
| `HeapTiles.AllocateKeeps` | tests/lib.c:761-800 | malloc keeps the heap tiled without gap or overlap in word multiples, with no two free neighbours |
| `HeapTiles.ReleaseKeeps` | tests/lib.c:803-843 | free keeps it too, merging on both sides |
| `HeapTiles.FreeUndoesMalloc` | tests/lib.c:768-839 | freeing the block just given restores the identical tiles, whether it was split off or taken whole |
| `HeapTiles.FailsOnlyIfNoneFits` | tests/lib.c:776-799 | malloc fails exactly if no free block holds the rounded size and its header |
| `HeapTiles.NothingAllocated` | tests/lib.c:751-756 | with nothing allocated the heap is one free block of the full size |
| `HeapLinks.SplitLinked` | tests/lib.c:783-788 | the three writes of a split leave a correct free list in memory |
| `HeapLinks.MergeLinked` | tests/lib.c:825-839 | the writes of a merge leave a correct free list in memory |
| `HeapLinks.ToggleAfter` | tests/lib.c:818-823 | linking a block in or out behind the last free one keeps the free list correct and in address order |
| `HeapRequests.SizeTestExact` | tests/lib.c:781-782 | the signed 32-bit size test means what is intended for exactly these pairs of sizes |
| `HeapRequests.SoundChoice` | tests/lib.c:768-792 | for a sound request the rounding does not wrap where it matters, and the loop stops at the block first fit would take and splits it when it should |
| `HeapRequests.UnsoundChoice` | tests/lib.c:768-792 | for an unsound request the loop stops at a block although no block is big enough |
| `HeapRequests.ChoosesWellExactly` | tests/lib.c:768-792 | malloc does first fit exactly if the request is at most 2^32 - 8 bytes and, rounded and with its header, exceeds no free block by more than 2^31, or nothing is free; all requests up to 2^31 + 8 bytes are such |
| `HeapAllocator.WrappedRequestTears` | tests/lib.c:768-789 | a request of 2^32 - 3 bytes to the new heap of 256 bytes is granted, and after it no row of blocks describes the heap |
| `HeapAllocator.Heap.constructor` | tests/lib.c:751-756 | one free block of the full size |
| `HeapAllocator.Heap.FindFit` | tests/lib.c:778-796 | the walk along the free list stops at the first block that passes one of the two tests, with the free block before it |
| `HeapAllocator.Heap.Malloc` | tests/lib.c:761-800 | for every 32-bit request: a sound one refines first fit, gives NULL exactly if nothing fits and leaves all allocated bytes alone; an unsound one is granted although nothing fits, with the words the wrapped arithmetic writes |
| `HeapAllocator.Heap.Free` | tests/lib.c:803-843 | refines the release with both merges and leaves the bytes of all other allocated blocks alone |
| `HeapAllocator.Heap.Store` | tests/lib.c:761-800 | a user's write inside its block harms neither the heap's structure nor another block |
| `HeapAllocator.Between` | tests/lib.c:813-816 | the search of free stops between the free neighbours of the block |
| `HeapRuns.AlwaysTiled` | tests/lib.c:751-843 | after any sequence of sound requests and valid frees the blocks tile the heap and no two free ones touch |
| `HeapRuns.BlocksApart` | tests/lib.c:761-800 | no two allocated blocks overlap |
| `HeapRuns.MallocAdds` | tests/lib.c:761-800 | malloc adds exactly one block, big enough and new |
| `HeapRuns.FreeRemoves` | tests/lib.c:803-843 | free removes exactly the block it was given |
| `HeapRuns.FreesItsBlock` | tests/lib.c:803-843 | a pointer may be freed exactly if an allocated block's header is the four bytes before it, and freeing it takes away that block and no other |
| `HeapRuns.FreeingAllGivesWhole` | tests/lib.c:803-843 | once all given blocks are freed, in any order, the heap is one free block of its full size |
| `Processes.StepKeeps` | proc/process.c:242-388 | every step keeps each live process's list equal to its exited children, each once, and nobody's parent dead |
| `Processes.ExitKeeps` | proc/process.c:345-388 | an exit without running children keeps this |
| `ProcessRuns.AlwaysOk` | proc/process.c:242-388 | it holds in every state of every run |
| `ProcessRuns.SlotStep` | proc/process.c:59-388 | for each state of a slot, exactly the step that changes it and what it becomes: a spawn reserves the first free slot, its second half makes it a running child, its own exit makes it a zombie with the exit value, its parent's join or exit frees it; no other step changes it |
| `ProcessRuns.FreedOncePerUse` | proc/process.c:345-388 | between two frees of a slot it was allocated again |
| `ProcessRuns.JoinReturnsLastExit` | proc/process.c:286-343 | a join returns the value given at the last exit of that process if it is not negative, and else 0 |
| `ProcessRuns.ValueJoinedOnce` | proc/process.c:286-343 | each exit value is returned by at most one join: between two joins of one pid a new process has exited there, and the second join returns its value |
| `ProcessTables.ProcessTable.Allocate` | proc/process.c:75-93 | reserves the first free slot, or fails exactly if there is none |
| `ProcessTables.ProcessTable.Spawn` | proc/process.c:242-273 | that slot becomes a running child of the caller, which counts it |
| `ProcessTables.ProcessTable.TryJoin` | proc/process.c:286-343 | refuses exactly processes that are not children, waits exactly for running ones, and otherwise returns the value and frees the slot |
| `ProcessTables.ProcessTable.Finish` | proc/process.c:403-426 | the unjoined zombies of the process are freed, and it becomes the head of its parent's zombie list, with the given value if that is not negative and else 0 |
| `ProcessTables.ProcessTable.FinishGiven` | proc/process.c:345-388 | exactly which entries change and how |
| `ProcessTables.ProcessTable.FreeZombies` | proc/process.c:352-359 | the loop frees exactly the zombies of the list and lowers the child count by their number |
| `ProcessTables.ProcessTable.UnlinkZombie` | proc/process.c:311-338 | exactly the two neighbours and the parent are relinked |
| `ProcessTables.JoinRepresents` | proc/process.c:311-338 | afterwards every zombie list is a well-formed doubly linked list again and every count is right |
| `ProcessTables.ExitRepresents` | proc/process.c:345-388 | the same after an exit |
| `ProcessTables.OnlyZombies` | proc/process.c:352-359 | a process without running children counts exactly its zombies |
| `VfsPath.ParsePathname` | fs/vfs.c:316-355 | succeeds exactly on paths that name a file, with a bracketed volume of at most 14 characters or none, and gives that volume and file |
| `VfsPath.NamesOne` | fs/vfs.c:316-355 | a path names at most one file on one volume |
| `VfsPath.ComposeAndParse` | fs/vfs.c:316-355 | parsing a path put together from a volume and a file gives both back |
| `VfsPath.NameableExactly` | fs/vfs.c:324-338 | a file on a volume can be named exactly if the file's name has 1 to 15 characters and the volume's at most 14 and no closing bracket |
| `Vfs.StepKeeps` | fs/vfs.c:157-646 | every locked region keeps the operation count, the shutdown protocol, the slots and their filesystems consistent |
| `Vfs.StepMounted` | fs/vfs.c:473-583 | no step leaves a slot in use whose filesystem is not mounted |
| `VfsRuns.Reachable` | fs/vfs.c:157-646 | the invariant holds in every interleaving of any number of threads |
| `VfsRuns.OpsAreCounted` | fs/vfs.c:365-401 | vfs_ops is the number of operations in flight, so the assertion in vfs_end_op holds |
| `VfsRuns.UnmountedOnlyWhenIdle` | fs/vfs.c:157-192 | vfs_deinit unmounts only when no operation is in flight, so its assertion holds |
| `VfsRuns.NoneStartsAfterHalt` | fs/vfs.c:365-380 | no operation starts once vfs_usable is cleared |
| `VfsRuns.RaisedByLast` | fs/vfs.c:385-401 | vfs_unmount_sem is raised at most once, exactly by the end of the last operation in flight |
| `VfsRuns.WaitingEnds` | fs/vfs.c:166-174 | a shutdown that waits while nothing is in flight can go on |
| `VfsRuns.OpenFilesAreMounted` | fs/vfs.c:542-583 | until the shutdown is done every slot in use refers to a mounted filesystem |
| `VfsRuns.HeldStaysMounted` | fs/vfs.c:494-505 | over any run, from the reservation of a slot until it is given back, nothing but the shutdown takes its filesystem out of the mount table |
| `VfsRuns.HandlesNotShared` | fs/vfs.c:542-583 | between two opens that get the same handle the first has given it back |
| `VfsEffects.MountOutcome` | fs/vfs.c:417-459 | the exact conditions of the three results: limit if every row has a filesystem, success if some row has none and no row has the name |
| `VfsEffects.RemountRefused` | fs/vfs.c:441-505 | a name that was just unmounted cannot be mounted again while its row is not taken by another mount |
| `VfsEffects.UnmountOutcome` | fs/vfs.c:473-513 | the exact conditions of the three results: not found if the name leads to no filesystem, in use if a slot in use is on it, else success |
| `VfsEffects.OpenOutcome` | fs/vfs.c:542-570 | the exact conditions of the results: limit if every slot is in use, no such filesystem if there is a slot but the name leads nowhere, else the lowest slot not in use |
| `VfsEffects.LeadsTo` | fs/vfs.c:287-301 | a name leads to a filesystem exactly if a row holds both: no other row hides it |
| `VfsEffects.NameStep` | fs/vfs.c:157-513 | a successful mount makes its name lead to its filesystem, a successful unmount and the end of the shutdown make it lead nowhere, and no other step changes where a name leads |
| `VfsEffects.RowStep` | fs/vfs.c:157-513 | which row each step changes and to what: a mount the lowest one without a filesystem, an unmount the one of its name, the end of the shutdown all |
| `VfsEffects.MountedUntilTaken` | fs/vfs.c:417-505 | over any run, from a successful mount until an unmount of the name or the shutdown, the name leads to the mounted filesystem |
| `VfsEffects.SlotStep` | fs/vfs.c:526-764 | what each step leaves in each slot: the volume's filesystem after an open, the driver's file id and position 0 after its end, no filesystem after a close or a failed open, the sought position, the position raised by the bytes moved; everything else stays |
| `VfsEffects.PhaseStep` | fs/vfs.c:365-764 | which thread each step moves on, and the result it leaves with; no other thread moves |
| `VfsEffects.CountStep` | fs/vfs.c:365-401 | an operation that starts is counted exactly while the tables are usable, one that ends is not counted any more, and only the shutdown makes the tables unusable |
| `VfsEffects.HandleIsItsFile` | fs/vfs.c:586-764 | over any run, from a successful end of vfs_open until its handle is given back, the handle stands for the file id that the driver returned, on the same filesystem, and its position is where the seeks and transfers on it alone have moved it from 0 |
| `VfsEffects.HandleOnItsVolume` | fs/vfs.c:542-583 | over any run, from the reservation of a slot until it is given back, the slot is on the filesystem that the volume's name led to at the reservation |
| `VfsTables.Tables.StartOp` | fs/vfs.c:365-380 | refines the start of an operation |
| `VfsTables.Tables.EndOp` | fs/vfs.c:385-401 | refines its end, with the wake-up of the shutdown |
| `VfsTables.Tables.Mount` | fs/vfs.c:417-459 | takes the first free row, and fails exactly if there is none or the name is in the table |
| `VfsTables.Tables.Unmount` | fs/vfs.c:473-513 | fails exactly if the name is not mounted or its filesystem is in use, and else frees the row |
| `VfsTables.Tables.OpenReserve` | fs/vfs.c:542-570 | reserves the first free slot for the named volume's filesystem, with the source's two errors in its order |
| `VfsTables.Tables.OpenDone` | fs/vfs.c:572-591 | fills the slot in, or gives it back if the driver failed, as `VfsEffects.SlotStep` says, and returns the slot or the driver's error |
| `VfsTables.Tables.Close` | fs/vfs.c:625-646 | frees the slot |
| `VfsTables.Tables.Halt` | fs/vfs.c:157-192 | stops new operations, and unmounts all at once exactly if none is in flight |
| `VfsTables.Tables.HaltFinish` | fs/vfs.c:176-191 | unmounts all after the wait |
| `PagePools.PagePool.constructor` | vm/pagepool.c:74-101 | the free counter equals the number of zero bits, and the reserved pages are taken |
| `PagePools.PagePool.GetPhysPage` | vm/pagepool.c:109-131 | gives the lowest free page, never a reserved or held one; zero exactly if nothing is free, as long as page 0 is reserved; the internal assertion holds |
| `PagePools.PagePool.FreePhysPage` | vm/pagepool.c:139-160 | exactly that page is free again; both assertions hold for a held page |
| `PageTables.HalfWritten` | vm/vm.c:152-176 | writing one half of a pair entry changes exactly one page's mapping |
| `PageTables.EntryAdded` | vm/vm.c:190-207 | a new entry adds exactly one page's mapping |
| `PageTables.Translates` | vm/tlb.h:46-80 | a page is mapped to a frame with a permission exactly if the entry of its pair has them in the page's own half with the valid bit set |
| `PageTables.EntriesAtMostPages` | vm/tlb.c:66-82 | the entry count never exceeds the number of mapped pages |
| `PageTables.PageTable.Map` | vm/vm.c:138-208 | adds exactly one binding, and panics exactly if the page is mapped already or the table is full; every entry keeps the table's address space identifier |
| `PageTables.PageTable.SetDirty` | vm/vm.c:239-270 | changes the write permission of one page only, and panics exactly if it is not mapped |
| `PageTables.PageTable.MapPages` | proc/process.c:158-190 | a mapping loop gets through exactly if there are frames for all pages and none is mapped yet, and maps each page to its frame |
| `PageTables.PageTable.MapProcess` | proc/process.c:150-228 | no panic exactly if the pages fit the budget, there are frames for all and the three ranges are disjoint; then exactly the stack and segment pages are mapped, each to its frame, the read-only ones not writable and the others writable, and the fit assertion of tlb_fill holds both times |
| `Sockets.Pigeonhole` | net/socket.c:120-137 | with a slot free the ports up to the table size are not all in use |
| `Sockets.SocketTable.FirstFreePort` | net/socket.c:120-139 | the automatic search ends with the smallest unused port, at most the table size, so its assertion holds |
| `Sockets.SocketTable.OpenSocket` | net/socket.c:98-168 | fails exactly for a bad protocol, a full table, a used port or no semaphore; else binds the first free slot to an unused port |
| `Sockets.SocketTable.CloseSocket` | net/socket.c:176-197 | frees exactly that socket |
| `DiskDriver.Disk.ServedInOrder` | drivers/disk.c:210-309 | requests are completed in submission order, and the device is idle exactly if all are completed |
| `DiskDriver.Disk.Schedule` | drivers/disksched.c:50-64 | appends the request to the linked queue |
| `DiskDriver.Disk.NextRequest` | drivers/disk.c:274-309 | the idle device gets the oldest request; the driver's two assertions hold |
| `DiskDriver.Disk.Submit` | drivers/disk.c:210-245 | the request is accepted unless its semaphore cannot be had, and served at once exactly if the device was idle; the operation and the block of every request stay |
| `DiskDriver.Disk.Await` | drivers/disk.c:245-258 | once the P of a synchronous caller returns, its request is completed, the result is success, and the semaphore is gone |
| `DiskDriver.Disk.InterruptHandle` | drivers/disk.c:120-152 | an interrupt completes exactly the request at the device and raises its semaphore once; the request is never NULL, and the operation and the block of every request stay |

## Left out

- Hardware registers, assembly, interrupt vectors, booting, ELF loading, console output, and the shell and test programs.
- Disk errors and crashes in the middle of a filesystem operation; every operation of TFS is atomic under its lock, and block transfers are array reads and writes.
- `tfs_file` and `tfs_filecount`; `vfs_file` and `vfs_filecount`.
- Images of more than 4096 blocks.
- TfsDriver.Tfs.Read: a file id between 2 and the number of blocks must be the inode of a file; using the id of a removed file is not modelled.
- TfsDriver.Tfs.Write: the same condition on the file id.
- TfsDriver.Tfs.Create: names have 1 to 15 characters, which is what the path parser lets through.
- TfsDriver.Tfs.Remove: the source's loop reads one word past the inode's block table before its bound stops it; the model tests the bound first.
- TfsTool.Write: the host file is a byte string, names have at most 15 characters, and the one extra block the tool lists for sizes that are multiples of the block size is kept.
- Kernel.Apply: semaphores exist from the start, and none is destroyed while waited on; resources are nonzero; the idle thread's state, which all processors share, is not constrained.
- ThreadTables.ThreadTable.InitSlot: the context and stack of the thread are not modelled; nor is the window in which a stack is still used by a dying thread.
- ThreadTables.ThreadTable.Schedule: the timer set-up is left out.
- HeapAllocator.Heap.Malloc: the heap has less than 2^31 bytes; a write that wrapped arithmetic puts outside of the heap is not seen, so of an unsound request only the words inside the heap are stated; offsets are relative to the start of the heap and NULL is -1.
- HeapRuns.Allowed: runs with unsound requests are left out, because the heap may have no blocks afterwards.
- `realloc`, which copies the new size, and `calloc`.
- Processes.Enabled: exits of processes that have running children, and the start-up thread's final join, are left out; free slots have parent -1 from the start.
- ProcessTables.ProcessTable.FinishGiven: the branch for a zombie parent and its recursion cannot be reached under that condition.
- VfsTables.Tables.Mount: mount points have 1 to 15 characters; longer ones are truncated by the source.
- Vfs.Enabled: one thread halts the system, and a handle is not closed while another thread uses it.
- PageTables.PageTable.MapProcess: the copying of segments and the TLB contents are left out; the frames come as parameters, and the page table has at least as many entries as the TLB.
- DiskDriver.Disk.Await: the blocking itself is covered by the semaphore model; the operation code is a read or a write.
- `net/pop.c`, `drivers/tty.c` and `proc/semaphore.c`.
