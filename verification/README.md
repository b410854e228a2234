# Verification of the kernel's stateful core

A small x86 teaching kernel: paged memory with copy-on-write, demand pages, shared pages and
swap; a round-robin scheduler with wait queues and semaphores; pipes; an ext2 reader; and two
programs that encrypt a file with three cooperating processes. This project models those
parts in Dafny and proves what they are for. `dafny verify dfyconfig.toml` checks all of it.

## Layout

Routines that work in place are classes and methods; each is proved equal to an event or a
function of a model on values, and the properties are proved about the model.

- `PagingModel`, `PagingInvariant`, `PagingRefinement`, `PagingRuns`: the user half of `mm.c`
  and `page_fault_isr` on values; counts, kinds and the free list; refinement of a simple
  memory with eager fork and aliasing; runs. `MemoryManager` is the same in place.
  `FrameTable` is the `page_t` table with its intrusive list, also for kernel pages.
  `PteBits` and `PteWord` are the 32-bit words (32-bit paging, section 4.3 of the Intel SDM
  Vol. 3A).
- `Links`: the circular doubly linked list macros, refined by sequences.
- `SchedModel`, `BoundedWait`, `LoaderModel`, `Semaphore`: processes on values, with
  `Scheduler` and `Loader` in place on `Links`. Scheduler and loader never pass each other
  the pid of a new process; `LoaderModel` shows when their free lists agree, and `LoaderRuns`
  gives runs from boot in which they come to differ.
- `MemkryptoModel`, `MemkryptoRuns`: three processes over four shared pages and three token
  pipes, all interleavings of byte-sized steps. `Krypto`: the same stages over two pipes;
  `KryptoWaits` adds their wait queues and what closing does to them. `XorKey`, `Chunks` and `Decrypt`: the cipher and the host program that undoes it.
- `BlockWalk`, `FileWindow`, `Swap`, `BlockDevice`: block trees, the one-page window of an
  open file, the swap files, and byte addressing of a disk. What `BlockWalk` delivers is what
  `FileWindow` calls `data` (`FileWindow.WindowIsSlice`).
- `CircBuffer`, `PipeModel`, `Pipes`: the circular buffer, one pipe as a protocol, and the
  device tables.
- `Digits`: printing and parsing of integers.
- `Common`, `Arith`, `Slices`: types and facts that others use.

## Where the code keeps less than it promises

Each of these is a statement with the exact condition under which the code is right.

- Fork drops pages of the parent that are in the swap area (`PagingRefinement.ForkAbs`).
- `CR0_WP` is declared but never set, so a system call that stores into a copy-on-write page
  changes it for every process (`PagingRuns.KernelStoreAbs`).
- `share_page` refuses a page that is in the swap area (`PagingRefinement.SharePageAbs`).
- After an exit whose successor is blocked, the next tick runs that blocked task
  (`LoaderModel.RunInvExactly`, `LoaderRuns.BlockedTaskRuns`), and a second exit makes scheduler
  and loader disagree on free pids (`LoaderModel.PidsExactly`, `LoaderRuns.PidsDiffer`).
- The last `sys_close` of a pipe end never does the work of `pipe_flush`, because it has
  counted down already (`PipeModel.SysCloseExact`, `PipeModel.StrandedForever`). Stages of
  `krypto` that wait then never finish, though all of their output is there
  (`KryptoWaits.RunOutput`, `KryptoWaits.NobodyWoken`).
- `pipe_write` neither moves its data pointer nor stops at a full buffer
  (`PipeModel.RunLossless`).
- The file window is filled from a block but looked up by section, so a read inside a cached
  section that starts in another block gets the wrong bytes (`FileWindow.CachedServes`,
  `FileWindow.WrongByte`). A write into a cached section never reaches the disk, and any other
  is right exactly from a block boundary and for a whole window (`FileWindow.File.WriteTurn`,
  `FileWindow.WriteTurnExact`).
- `decrypt` restarts the key at every read (`Decrypt.DecryptInverts`).
- The circular buffer's read index wraps (`CircBuffer.ReadIndexExact`); the kernel's buffer
  sizes are powers of two, for which it does no harm.
- `sem_broadcast` forgets the places of those it wakes (`Semaphore.BroadcastInv`).
- The least integer has no text (`Digits.RoundTrip`).

## Model

| member | source | states |
|---|---|---|
| PagingRuns.RunRefines | src/kernel/mm.c:151-283 | over every run from boot, each step of the memory manager is a step of a simple memory where processes own their pages, fork copies eagerly and shared pages alias one cell, exactly if it is no fork of a process with swapped pages |
| PagingRuns.StepRefines | src/kernel/mm.c:151-283 | the same for one step from any state that satisfies the invariant: creation, new page, palloc, load, store, share, fork, exit |
| PagingRuns.RunInv | src/kernel/mm.c:381-428 | in every reachable state each frame's count is the number of entries that map it, it is free exactly at count zero, its mappings agree on one kind, and nine frames are free if memory has nine |
| PagingRuns.LoadReturns | src/kernel/idt.c:222-245 | after a load has been let through, the frame behind the page holds what the simple memory holds there |
| PagingRuns.AccessServed | src/kernel/idt.c:222-245 | a user access is let through after at most one fault exactly when, kind by kind, a frame (and for a copy an address) can be had |
| PagingRuns.NewUserPageServed | src/kernel/mm.c:549-574 | a fresh page can be had exactly when ten frames are free or there are a victim and a swap id; a page is evicted exactly when fewer than ten are free |
| PagingRuns.SharePageServed | src/kernel/mm.c:258-283 | share_page goes through exactly when the page it needs can be had, kind by kind, and leaves a requested or present page shared |
| PagingRuns.SwapOutServed | src/kernel/mm.c:483-522 | eviction goes through exactly when there are a victim and a swap id; the highest assigned page below the stack is stored under the next id, its frame is free, and nothing else changes |
| PagingRuns.PallocServed | src/kernel/mm.c:151-160 | palloc goes through exactly when an address is left, and requests the first one from the last that was found; nothing else changes |
| PagingRuns.KernelStoreAbs | src/include/mm.h:26-36 | with CR0.WP never set, a kernel store into a user page stays within the process exactly when the page is not copy-on-write with company |
| PagingRefinement.ForkAbs | src/kernel/mm.c:210-256 | fork is the eager copy exactly when no page of the parent is in the swap area |
| PagingRefinement.ForkDropsSwapped | src/kernel/mm.c:233-234 | a swapped page of the parent is unmapped in the child |
| PagingRefinement.ForkThenExit | src/kernel/mm.c:121-149 | fork followed by the child's exit leaves every user frame's count, the set of free user frames and what processes see as they were |
| FrameTable.KernelPagesComeBack | src/kernel/mm.c:115-149 | taking any number of kernel pages for a directory, its tables wherever they go and a stack, and giving them back as mm_dir_free and kill_zoombies do, leaves every count and the set of free kernel pages as they were |
| FrameTable.TakenCount | src/kernel/mm.c:98-105 | frames taken one after the other off the free list are held once more, and no other count changes |
| PagingRefinement.ExitAbs | src/kernel/mm.c:121-149 | exit removes one address space and the cells nobody aliases any more |
| PagingRefinement.SharePageAbs | src/kernel/mm.c:258-283 | share_page makes the page an alias of a cell that nothing else aliased, and returns 0 exactly when the page is neither unmapped nor in the swap area |
| PagingRefinement.LoadCowAbs | src/kernel/mm.c:166-190 | resolving copy-on-write is invisible to every process |
| PagingRefinement.SwapInAbs | src/kernel/mm.c:499-509 | a page swapped in is the page that was swapped out; nobody sees the difference |
| PagingRefinement.MakeRoomAbs | src/kernel/mm.c:511-522 | eviction is invisible to every process |
| PagingRefinement.NewUserPageAbs | src/kernel/mm.c:549-574 | a new page is private and nothing else changes |
| PagingRefinement.TouchAbs | src/kernel/idt.c:222-245 | a user access only fixes the bytes of a requested page, and the page is accessible afterwards |
| PagingRefinement.WriteAbs | src/kernel/mm.c:241-250 | a store through any entry but a copy-on-write one with company is a store of the simple memory: it reaches all who share the page and nobody else |
| PagingRefinement.ReadAgrees | src/kernel/mm.c:446-455 | what is behind a present entry is what the process reads in the simple memory |
| PagingRefinement.SpawnAbs | src/kernel/mm.c:115-119 | a new directory has no user page |
| PagingInvariant.ForkInv | src/kernel/mm.c:210-256 | fork keeps counts, free list and kinds right, and takes no frame |
| PagingInvariant.ExitInv | src/kernel/mm.c:121-149 | freeing a directory keeps counts, free list and kinds right, and no fewer frames are free afterwards |
| PagingInvariant.FreedEntries | src/kernel/mm.c:128-136 | the loop of mm_dir_free clears exactly the present user entries it has passed, and no entry of another process |
| PagingInvariant.NewUserPageInv | src/kernel/mm.c:549-574 | a new page keeps the invariant, and nine frames stay free if nine were |
| PagingInvariant.SwapOutInv | src/kernel/mm.c:511-522 | eviction keeps the invariant and frees exactly one frame |
| PagingInvariant.LoadCowInv | src/kernel/mm.c:166-190 | resolving copy-on-write keeps the invariant, and nine frames stay free if nine were |
| PagingInvariant.SwapInInv | src/kernel/mm.c:499-509 | swapping in keeps the invariant, and nine frames stay free if nine were |
| PagingInvariant.SharePageInv | src/kernel/mm.c:258-283 | sharing keeps the invariant, and nine frames stay free if nine were |
| PagingInvariant.RequestPageInv | src/kernel/mm.c:151-160 | palloc keeps the invariant and takes no frame |
| PagingInvariant.CountSetPte | src/kernel/mm.c:381-411 | rewriting one entry changes the number of mappings of a frame by what was removed and added |
| PagingModel.FirstInvalid | src/kernel/mm.c:601-615 | the first page from the given one up whose entry is zero, if there is one |
| PagingModel.LastAssigned | src/kernel/mm.c:483-496 | the last assigned page strictly between the first user page and the stack, if there is one |
| MemoryManager.MemoryManager.NewUserPage | src/kernel/mm.c:549-574 | new_user_page in place: stops exactly when the value model stops, and otherwise leaves exactly its state |
| MemoryManager.MemoryManager.SwapPageOut | src/kernel/mm.c:511-522 | mm_swap_page_out in place: stops exactly when the value model stops, and otherwise leaves exactly its state |
| MemoryManager.MemoryManager.GetVictimVaddr | src/kernel/mm.c:483-496 | the downward search finds the last assigned page below the stack |
| MemoryManager.MemoryManager.SeekUnusedVaddr | src/kernel/mm.c:601-615 | the upward search finds the first zero entry and remembers it |
| MemoryManager.MemoryManager.RequestMemAlloc | src/kernel/mm.c:151-160 | palloc in place: stops exactly when the value model stops, and otherwise leaves exactly its state |
| MemoryManager.MemoryManager.ClonePte | src/kernel/mm.c:576-589 | clone_pte in place: stops exactly when the value model stops, and otherwise leaves exactly its state |
| MemoryManager.MemoryManager.LoadCowPage | src/kernel/mm.c:166-190 | mm_load_cow_page in place: stops exactly when the value model stops, and otherwise leaves exactly its state |
| MemoryManager.MemoryManager.SwapPageIn | src/kernel/mm.c:499-509 | mm_swap_page_in in place: stops exactly when the value model stops, and otherwise leaves exactly its state |
| MemoryManager.MemoryManager.SharePage | src/kernel/mm.c:258-283 | mm_share_page in place, with its return code: stops exactly when the value model stops, and otherwise leaves exactly its state |
| MemoryManager.MemoryManager.ClonePd | src/kernel/mm.c:210-256 | the loop of mm_clone_pd is the fork that the refinement is about |
| MemoryManager.MemoryManager.DirFree | src/kernel/mm.c:121-149 | the loop of mm_dir_free over the user pages is the exit that the refinement is about |
| MemoryManager.MemoryManager.ReturnPage | src/kernel/mm.c:381-394 | return_page on a user frame: leaves exactly the state of the value model |
| MemoryManager.MemoryManager.TakeFreePage | src/kernel/mm.c:423-428 | take_free_page on the user frames: leaves exactly the state of the value model |
| MemoryManager.MemoryManager.PageFaultIsr | src/kernel/idt.c:222-245 | which fault leads to which step: stops exactly when the value model stops, and otherwise leaves exactly its state |
| FrameTable.DirFreeOnce | src/kernel/mm.c:121-149 | returning every table twice and then the directory frees each of them, once, and changes no other count |
| FrameTable.ReturnAllFrees | src/kernel/mm.c:381-394 | frames held once are freed once each, and the table stays sound |
| FrameTable.ReserveThenReturn | src/kernel/mm.c:381-411 | returning a frame undoes reserving it |
| FrameTable.ReturnedSecond | src/kernel/mm.c:375-394 | a frame that becomes free is next but one to be taken, or next if it is the only one |
| FrameTable.UserFramesAgree | src/kernel/mm.c:381-411 | the memory manager's counts and free list move as the page_t table's do |
| FrameTable.ForkFramesAgree | src/kernel/mm.c:241-250 | so do the counts that fork raises for frames that are mapped |
| FrameTable.FrameTable.constructor | src/kernel/mm.c:315-340 | all frames free and linked in order |
| FrameTable.FrameTable.ReservePage | src/kernel/mm.c:396-411 | a frame is counted up and leaves the free list wherever it was on it |
| FrameTable.FrameTable.ReturnPage | src/kernel/mm.c:375-394 | a frame is counted down and at zero joins the free list behind its head |
| FrameTable.FrameTable.TakeFreePage | src/kernel/mm.c:423-428 | the head of the free list is taken; an empty list yields NULL |
| FrameTable.FrameTable.DirFree | src/kernel/mm.c:121-149 | the passes of mm_dir_free over the tables leave what returning each once would leave |
| PteBits.KindsExclude | src/kernel/mm.c:8-17 | no 32-bit word has two kinds |
| PteBits.AvlCodes | src/include/mm.h:64-83 | each kind is its number in bits 9 to 11, with P and RW |
| PteBits.PresentKinds | src/kernel/mm.c:8-17 | a present word is assigned, shared or copy-on-write exactly by its AVL and RW bits |
| PteBits.SwappedKinds | src/kernel/mm.c:16-22 | the word that eviction writes is swapped, not present and not zero, for every id |
| PteBits.CowBits | src/kernel/mm.c:19-22 | MARK_AS_COW on any present word gives the read-only copy-on-write word of the same frame |
| PteBits.SharedBits | src/kernel/mm.c:20-22 | MARK_AS_SHARED keeps frame and RW |
| PteBits.OwnedBits | src/kernel/mm.c:182 | a copy-on-write word whose AVL bits are cleared and RW set is the assigned word of the same frame |
| PteBits.HardwareKinds | src/include/mm.h:61-83 | accessed and dirty bits set by the processor change no kind |
| PteBits.OtherPayloads | src/kernel/mm.c:505-521 | frame number and swap id come back out of the words they are put into |
| PteBits.EntryOfAddress | src/include/mm.h:49-50 | two addresses use the same entry of the same table exactly when they are on the same page |
| PteBits.HardwarePayload | src/include/mm.h:61-73 | nor do they change the frame |
| PteBits.HardwareCow | src/kernel/mm.c:19 | and they survive MARK_AS_COW |
| PteBits.HardwareShared | src/kernel/mm.c:20 | and MARK_AS_SHARED |
| PteWord.ForkWord | src/kernel/mm.c:240-250 | what fork leaves in an entry is MARK_AS_COW of its word for an assigned page, and the word itself otherwise |
| PteWord.ShareWord | src/kernel/mm.c:280 | what share_page leaves is MARK_AS_SHARED of the word |
| PteWord.OwnWord | src/kernel/mm.c:182 | what the last process of a copy-on-write page gets is its word with cleared AVL bits and RW set |
| PteWord.EvictWord | src/kernel/mm.c:517-521 | what eviction leaves is the swapped word, whose base is the swap id |
| PteWord.FreshWord | src/kernel/mm.c:571 | what a new page gets is the word of its frame, present, user, writable and assigned |
| PteWord.KindTests | src/kernel/mm.c:8-17 | each macro tells on the word what the memory manager's model tests on the entry |
| Links.Links.Append | src/include/utils.h:43-73 | the node becomes the last of the list, and no node outside changes |
| Links.Links.Unlink | src/include/utils.h:48-61 | the node leaves the list wherever it was, also when it was the only one, and its pointers are NULL |
| Links.Links.Pop | src/include/utils.h:76-81 | the head is taken; an empty list yields NULL |
| Links.Links.Transfer | src/include/utils.h:64-81 | the head of one list becomes the last of another |
| Links.Links.Size | src/include/utils.h:83-93 | SIZE of a list that is not empty is its length |
| Links.Links.AllNodes | src/include/utils.h:96-109 | every node of the table, in order |
| Links.Links.AddBehindHead | src/kernel/mm.c:375-378 | the node goes right behind the head |
| Links.Rotate | src/kernel/sched.c:87 | moving the head along a ring rotates the list |
| Links.UnlinkValue | src/include/utils.h:48-61 | next and prev stay mutually inverse around the gap |
| Links.AppendValue | src/include/utils.h:64-73 | next and prev stay mutually inverse around the new last node |
| BoundedWait.BoundedWaiting | src/kernel/sched.c:38-113 | in every run with 20*31 ticks a task that could run at its start is at the head at some point, whatever loads, wake-ups, blocks and exits happen |
| BoundedWait.WaitPays | src/kernel/sched.c:38-113 | until then the ticks so far and the ticks left to the tasks ahead are never more than those ahead at the start |
| BoundedWait.StepWait | src/kernel/sched.c:38-113 | the ticks left to the tasks ahead fall at each tick and rise at no event |
| BoundedWait.WaitBound | src/kernel/sched.c:8 | they are at most 20*31, and zero exactly at the head |
| BoundedWait.QuantumRuns | src/kernel/sched.c:77-95 | until its quantum ends the head keeps the processor, and each tick takes exactly one from what it has left |
| BoundedWait.QuantumEnds | src/kernel/sched.c:77-95 | after exactly as many ticks as it had left, the first other task that is not blocked is the head, and the task before has 20 again |
| BoundedWait.QuantumKept | src/kernel/sched.c:38-95 | no other event takes ticks from a task or gives it any |
| BoundedWait.LoadedLast | src/kernel/sched.c:38-48 | a new task comes last on the ring, can run and has 20 ticks |
| BoundedWait.RunInv | src/kernel/sched.c:38-113 | idle is on the ring and can run, every pid is on the ring or free, and 1 <= rem_quantum <= 20 for tasks on the ring, in every reachable state |
| SchedModel.NextIndex | src/kernel/sched.c:101-113 | the search stops at the first task after the head that is not blocked |
| SchedModel.NextIsRunnable | src/kernel/sched.c:101-113 | while idle can run, the search ends at a task that can run |
| SchedModel.LoadInv | src/kernel/sched.c:38-48 | a load keeps the scheduler's invariant |
| SchedModel.BlockInv | src/kernel/sched.c:66-75 | a block of any task but idle keeps it |
| SchedModel.ExitInv | src/kernel/sched.c:55-64 | an exit of any task but idle keeps it |
| SchedModel.TickInv | src/kernel/sched.c:77-95 | a tick keeps it |
| Scheduler.Scheduler.constructor | src/kernel/sched.c:34-36 | all tasks free in order, none on the ring |
| Scheduler.Scheduler.SchedLoad | src/kernel/sched.c:38-48 | the first free task goes to the end of the ring with a full quantum |
| Scheduler.Scheduler.SchedUnblock | src/kernel/sched.c:50-53 | only the task's blocked flag changes |
| Scheduler.Scheduler.SchedExit | src/kernel/sched.c:55-64 | the head leaves the ring for the end of the free list; the pid returned is the next that can run |
| Scheduler.Scheduler.SchedBlock | src/kernel/sched.c:66-75 | the head is blocked and the next that can run becomes head |
| Scheduler.Scheduler.SchedTick | src/kernel/sched.c:77-95 | the head loses a tick, and at zero its quantum restarts and the next that can run becomes head |
| Scheduler.Scheduler.NextExecutableTask | src/kernel/sched.c:101-113 | the loop terminates and finds the first task in ring order that can run |
| LoaderModel.RunInv | src/kernel/loader.c:200-433 | as long as the successors of exiting tasks can run: free pids agree between scheduler and loader, every PCB is in one place, a task is blocked exactly when it waits in a queue, and the head of the ring is the running PCB |
| LoaderModel.RunInvExactly | src/kernel/loader.c:200-433 | all of that holds in every state of a run exactly when every exiting task has a successor that can run |
| LoaderModel.PidsExactly | src/kernel/loader.c:319-333 | free pids agree in every state of a run exactly when every exit happens while the running PCB is the head of the ring |
| LoaderModel.PidsStep | src/kernel/loader.c:319-333 | one event keeps them in agreement exactly under that condition |
| LoaderModel.ExitTwice | src/kernel/sched.c:55-64 | two exits in a row across a blocked task, the second not of idle, leave scheduler and loader with different free pids |
| LoaderRuns.BlockedTaskRuns | src/kernel/sched.c:55-64 | a run from boot at whose end a task runs that is blocked and waits in a queue |
| LoaderRuns.PidsDiffer | src/kernel/sched.c:55-64 | a run from boot at whose end scheduler and loader would hand out different pids |
| LoaderRuns.TickOn | src/kernel/sched.c:77-95 | ticks use up a quantum and end with the next task that can run |
| LoaderModel.CreateInv | src/kernel/loader.c:200-244 | PCB and task taken for a new process have the same pid, which was in use by nobody |
| LoaderModel.ExitInvK | src/kernel/sched.c:55-64 | an exit keeps all of it exactly when the successor is not blocked |
| LoaderModel.ExitThenTick | src/kernel/sched.c:58-63 | otherwise the next tick runs a task that still waits in a queue |
| LoaderModel.ExitKeepsPids | src/kernel/loader.c:319-333 | free pids agree after every exit |
| LoaderModel.OnePlace | src/kernel/loader.c:106-109 | a PCB is free, a zombie, waiting in one queue or none of these, never two |
| LoaderModel.CurrentRuns | src/kernel/loader.c:335-360 | the running task is not blocked and its PCB is on no list |
| LoaderModel.EnqueueInv | src/kernel/loader.c:280-299 | waiting keeps the invariant |
| LoaderModel.UnqueueInv | src/kernel/loader.c:306-317 | waking keeps the invariant |
| LoaderModel.TickInvK | src/kernel/sched.c:77-95 | a tick keeps the invariant |
| LoaderModel.ReapInv | src/kernel/loader.c:248-255 | reaping keeps the order of free pids that the scheduler has |
| LoaderModel.UnqueueAllEmpties | src/kernel/loader.c:301-304 | waking all leaves nobody in the queue and the other queues alone |
| LoaderModel.BootInv | src/kernel/loader.c:117-143 | the invariant holds after loader_init |
| Loader.Loader.LoaderInit | src/kernel/loader.c:117-137 | leaves the boot state of the value model |
| Loader.Loader.Create | src/kernel/loader.c:200-243 | the first free PCB is taken, with the pid of the task that the scheduler takes |
| Loader.Loader.Enqueue | src/kernel/loader.c:280-299 | the running PCB joins the end of the queue, is blocked, and another task runs; all lists stay sound |
| Loader.Loader.QueueCurrent | src/kernel/loader.c:280-292 | only the queue changes, and the running PCB is its last |
| Loader.Loader.Unqueue | src/kernel/loader.c:306-317 | the first of the queue is woken, if there is one |
| Loader.Loader.UnqueueAll | src/kernel/loader.c:301-304 | the whole queue is woken in order |
| Loader.Loader.Exit | src/kernel/loader.c:319-333 | the running PCB becomes the last zombie and the scheduler's next pid runs |
| Loader.Loader.KillZoombies | src/kernel/loader.c:248-255 | all zombies join the free PCBs in order |
| Loader.Loader.TimerIsr | src/kernel/idt.c:202-205 | a tick, and a switch to the pid it returns |
| Semaphore.RunInv | src/kernel/sem.c:6-22 | in every run the queue length is max(0, -vl), holders are the places less max(0, vl), and places are given first come, first served |
| Semaphore.MutualExclusion | src/include/sem.h:8-12 | with one place two holders are one and the same, holding it once |
| Semaphore.SignalInv | src/kernel/sem.c:18-22 | a signal by a holder hands its place to the first in the queue |
| Semaphore.WaitInv | src/kernel/sem.c:6-16 | a wait keeps the counts and the order |
| Semaphore.BroadcastInv | src/kernel/sem.c:24-28 | a broadcast keeps them exactly when the value was zero already |
| Semaphore.Semaphore.Wait | src/kernel/sem.c:6-16 | the running PCB is queued exactly when no place was free; value, queue and holders move as a wait of the value model |
| Semaphore.Semaphore.Signal | src/kernel/sem.c:18-22 | the first in the queue is woken, if somebody waits; value, queue and holders move as a signal of the value model |
| Semaphore.Semaphore.Broadcast | src/kernel/sem.c:24-28 | everybody is woken and the value is zero |
| MemkryptoRuns.RunOutput | src/tasks/memkrypto.c:25-77 | in every interleaving and for every file, what has been put out is a prefix of the file under the repeating key, and all of it when no process can go on |
| MemkryptoRuns.RunEnds | src/tasks/memkrypto.c:25-77 | every run ends within 14 steps a byte and 8 more |
| MemkryptoRuns.NoDeadlock | src/tasks/memkrypto.c:13-20 | some process can go on exactly until all have finished; then the four tokens are back with the reader |
| MemkryptoRuns.RunInv | src/tasks/memkrypto.c:25-77 | the invariant on tokens, private variables and page contents holds in every state |
| MemkryptoRuns.TokensTotal | src/tasks/memkrypto.c:79-104 | tokens in the pipes and tokens held are four in all once all are signalled; written <= encrypted <= read <= written + 4 |
| MemkryptoRuns.FillIsSafe | src/tasks/memkrypto.c:31-37 | the page being filled holds no chunk that is still needed |
| MemkryptoRuns.Exclusive | src/tasks/memkrypto.c:32-73 | processes that hold tokens at the same time work on different pages |
| MemkryptoRuns.DecryptsBack | src/decrypt.c:11-22 | what a finished run has put out, decrypt turns back into the file, with full reads |
| MemkryptoRuns.ReaderInv | src/tasks/memkrypto.c:25-38 | every step of the reader keeps the invariant |
| MemkryptoRuns.EncryptInv | src/tasks/memkrypto.c:40-58 | every step of the encrypter keeps the invariant |
| MemkryptoRuns.WriterInv | src/tasks/memkrypto.c:60-77 | every step of the writer keeps the invariant |
| MemkryptoRuns.FillByte | src/tasks/memkrypto.c:33 | copying one byte into a page disturbs no chunk in flight |
| MemkryptoRuns.XorByte | src/tasks/memkrypto.c:51-52 | putting one byte under the key disturbs no other byte in flight, nor the chunk being filled |
| Krypto.RunOutput | src/tasks/krypto.c:11-42 | over pipes of 4096 bytes, in every interleaving, the output is a prefix of the file under the key; it is all of it once no stage can move bytes, whether or not closes wake anybody |
| Krypto.NothingMoves | src/tasks/krypto.c:11-42 | once no stage can move bytes the reader has finished, both pipes are empty and the whole file has been put out |
| KryptoWaits.RunOutput | src/kernel/pipe.c:88-147 | with wait queues and closes that do the work of pipe_flush, or only close the end, or leave it open: the same for the output of every run; a run that cannot go on has finished always, exactly if nobody is left in a queue, or never |
| KryptoWaits.UnflushedFinishes | src/kernel/syscalls_funcs.c:65-78 | with closes that wake nobody, all stages finish exactly if no stage is queued when its upstream stage finishes or later |
| KryptoWaits.NobodyWoken | src/kernel/syscalls_funcs.c:65-78 | a run over an empty file in which both other stages wait for ever |
| KryptoWaits.RunEnds | src/tasks/krypto.c:11-42 | every run ends, however closes work, within 12 steps a byte and 8 more |
| KryptoWaits.Stuck | src/kernel/pipe.c:88-147 | the same for any reachable state in which no stage can go on |
| Krypto.RunInv | src/tasks/krypto.c:11-42 | each pipe is empty or holds one whole chunk, in every reachable state |
| Krypto.NoDeadlock | src/tasks/krypto.c:11-42 | with closes that do the work of pipe_flush, no stage can go on exactly when all have finished |
| Krypto.RunEnds | src/tasks/krypto.c:11-42 | every run ends within 6 steps a byte and 3 more |
| Krypto.PipesAgree | src/kernel/pipe.c:88-124 | a stage waits, stores and takes exactly as pipe_read and pipe_write do |
| Krypto.XorInPlace | src/tasks/krypto.c:27-29 | the page is put under the key from the given index on, and the index carries over |
| Krypto.CipherChunk | src/tasks/krypto.c:20-32 | a chunk under the key from its first byte's index is that chunk of the file under the key |
| Decrypt.DecryptInverts | src/decrypt.c:15-20 | the file comes back exactly when the key of every read is in step with the stream |
| Decrypt.DecryptNeedsAlignment | src/decrypt.c:9-20 | with reads of at least 32 bytes, exactly when every read starts at a multiple of 32 |
| Decrypt.FullReadsInvert | src/decrypt.c:15-20 | with full reads of 1024 bytes up to the last, always |
| Decrypt.DecryptFile | src/decrypt.c:11-22 | the program writes the concatenation of its decrypted reads |
| Decrypt.DecryptBuffer | src/decrypt.c:17-20 | the in-place loop writes the decrypted block |
| XorKey.InStepExactly | src/decrypt.c:18 | a key restarted at an offset agrees with the running key over a key length exactly when the offset is a multiple of 32, if the last key byte is unique |
| XorKey.ProgramKeyLast | src/decrypt.c:9 | it is unique in the program's key |
| XorKey.KeyText | src/tasks/memkrypto.c:41 | the key is the text of the program, character by character |
| BlockWalk.Walk.OperateData | src/kernel/ext2.c:462-501 | the buffer gets the contents of exactly the slice of the flattened block list that starts at first_bno, as long as the request and cut at the end of the last tree, for every start, length and pointer contents; every kernel page is given back |
| BlockWalk.Walk.GetIndirect | src/kernel/ext2.c:503-537 | for every level, the walk takes from the tree what is left after skipping, and leaves the skip count and remaining bytes that are due behind it |
| BlockWalk.Walk.Entry | src/kernel/ext2.c:517-522 | a pointer whose whole subtree is skipped is not read |
| BlockWalk.Walk.Tree | src/kernel/ext2.c:493-498 | one tree more is taken from where the ones before end |
| BlockWalk.Walk.DirectLoop | src/kernel/ext2.c:475-489 | the slice of the direct blocks |
| BlockWalk.Walk.SetRemaining | src/kernel/ext2.c:470-473 | the request rounded up to whole blocks |
| BlockWalk.Walk.Power | src/kernel/utils_common.c:198-205 | power is exponentiation |
| BlockWalk.FlatSize | src/kernel/ext2.c:539-541 | a tree of a level has block_size/4 to that power data blocks |
| BlockWalk.FileBlocksAt | src/kernel/ext2.c:475-522 | block k of the flattened list is the one that ext2 keeps as block k of a file, by direct, single, double and triple indirection, up to the largest file |
| BlockWalk.FlatAt | src/kernel/ext2.c:517-522 | data block k of a tree is number k % n below pointer k / n, for subtrees of n data blocks |
| BlockWalk.PointerBytes | src/kernel/ext2.c:509-519 | a pointer has the four bytes of the block from its low end up |
| BlockWalk.FanoutCovers | src/kernel/ext2.c:508 | a block holds a quarter as many pointers as bytes |
| BlockWalk.ContentsAt | src/kernel/ext2.c:486-532 | byte j of the i-th block read is byte i*block_size+j of the buffer |
| BlockWalk.TakenAt | src/kernel/ext2.c:475-533 | how many blocks a request takes, and which |
| BlockWalk.BlockCountCovers | src/kernel/ext2.c:469-473 | the request takes the least number of blocks that holds its bytes |
| BlockWalk.TakenConcat | src/kernel/ext2.c:503-537 | skipping and taking over two lists in a row is skipping and taking over their concatenation |
| FileWindow.WindowIsSlice | src/kernel/ext2.c:462-501 | the walk from a block on delivers the file's bytes from that block on |
| FileWindow.File.Read | src/kernel/ext2.c:225-294 | the right bytes unless the window is stale; a stale window spoils exactly the first turn; negative beyond the end of the file |
| FileWindow.CachedServes | src/kernel/ext2.c:253-266 | a cached window serves a read of every file exactly when it was filled from the block of the read |
| FileWindow.File.NeverStale | src/kernel/ext2.c:263-267 | no window is stale with page-sized blocks, or at page boundaries only |
| FileWindow.File.ReadTurn | src/kernel/ext2.c:245-289 | one turn, and that the next one moves to another section |
| FileWindow.File.WriteTurn | src/kernel/ext2.c:245-289 | one turn of a write at any offset: source bytes go to the beginning of the window, which is stored from its block on only if another section was cached |
| FileWindow.WriteTurnExact | src/kernel/ext2.c:258-267 | a turn that stores is right for all contents exactly when it starts at a block boundary and fills all that is stored |
| FileWindow.WriteLands | src/kernel/ext2.c:258-267 | a turn that stores, at a block boundary, in the file and its direct blocks, puts all its bytes where they belong, however many there are |
| FileWindow.WriteLenWalks | src/kernel/ext2.c:470-489 | what a write stores are as many bytes as the walk takes direct blocks for it |
| FileWindow.WindowLenWalks | src/kernel/ext2.c:462-501 | what a read fills are as many bytes as the walk takes blocks for it |
| FileWindow.File.Write | src/kernel/ext2.c:225-294 | whole pages from a block boundary, in the direct blocks and another section, arrive on the disk; offset and result for every write |
| FileWindow.File.WritePage | src/kernel/ext2.c:258-267 | a page written at a page boundary reaches the disk exactly when the window held another section |
| FileWindow.StaleFile | src/kernel/ext2.c:253-266 | a read of the first byte makes the window of a file with 1024-byte blocks stale for its second block |
| FileWindow.WrongByte | src/kernel/ext2.c:253-266 | a read of byte 1024 then gives byte 0 |
| FileWindow.File.Locate | src/kernel/ext2.c:253-256 | block, section and place in the window of the offset |
| Swap.Swap.Load | src/kernel/swap.c:42-48 | a page loaded is the page that was unloaded under its id, after any unloads and loads in between |
| Swap.Swap.Unload | src/kernel/swap.c:31-40 | a new id for every page, and the page reaches its slot; earlier pages stay |
| Swap.Swap.StorePage | src/kernel/swap.c:35-36 | the window held another section, so the write goes through |
| Swap.SlotsApart | src/kernel/swap.c:50-58 | slots of different ids below 1536 are disjoint, exist, and lie in direct blocks |
| BlockDevice.BlockDevice.Read | src/kernel/device.c:16-59 | exactly the bytes from sector*size+offset on, for every offset within a sector and every length up to the end of the device; the rest of the buffer is unchanged |
| BlockDevice.BlockAddressExact | src/kernel/ext2.c:543-563 | both branches give the flat address bno*block_size+offset and an offset within a sector |
| BlockDevice.InodeLocated | src/kernel/ext2.c:374-403 | an inode's address is its table's first byte plus index*inode_size |
| BlockDevice.GetInode | src/kernel/ext2.c:374-406 | the record of the inode arrives in the buffer |
| BlockDevice.OffsetExact | src/kernel/ext2.c:35-38 | sector and offset make up the device offset |
| PipeModel.RunLossless | src/kernel/pipe.c:88-124 | at the end of any run bytes read and buffered are the bytes written, in order, exactly when every write of the run fitted and stored the bytes that were due |
| PipeModel.RunInv | src/kernel/pipe.c:88-147 | in every reachable state a reader waits only while the pipe is empty and writable, a writer only while it is full and readable |
| PipeModel.StepInv | src/kernel/pipe.c:88-147 | every attempt, close and fork keeps that |
| PipeModel.WriteLossless | src/kernel/pipe.c:111-122 | a write that fits appends its bytes, any other spoils the stream |
| PipeModel.FitsExactly | src/kernel/pipe.c:111-122 | a write fits exactly when it waits, nobody can read, or its bytes fit the free space and the first bytes of the data are those that are due |
| PipeModel.ReadDelivers | src/kernel/pipe.c:94-102 | a read that does not wait delivers as many bytes as were asked for or are there, from the front |
| PipeModel.WriteStores | src/kernel/pipe.c:111-122 | a turn of a write stores the first bytes of the data behind what the buffer holds, pushing out the oldest |
| PipeModel.ForkThenClose | src/kernel/pipe.c:126-147 | pipe_flush undoes what fork does to an end |
| PipeModel.StaysDifferent | src/kernel/pipe.c:88-124 | what is lost does not come back |
| PipeModel.SysCloseExact | src/kernel/syscalls_funcs.c:65-78 | sys_close does what pipe_flush does exactly when it is not the last reference of its end, or nobody waits at the other, open end |
| PipeModel.SysCloseStrands | src/kernel/syscalls_funcs.c:65-78 | closing the last write end by sys_close leaves waiting readers waiting, where pipe_flush wakes them |
| PipeModel.StrandedForever | src/kernel/pipe.c:126-147 | and no run of later operations wakes them |
| PipeModel.OneByteFits | src/tasks/memkrypto.c:17-20 | a one-byte write always fits |
| PipeModel.PageFits | src/tasks/krypto.c:15-16 | a page fits an empty pipe |
| Pipes.PipeTable.constructor | src/kernel/pipe.c:56-59 | all readers and writers free, in order |
| Pipes.PipeTable.Open | src/kernel/pipe.c:61-86 | a free reader and the writer with its number are taken; reader i stays free exactly when writer i is |
| Pipes.PipeTable.Release | src/kernel/pipe.c:135-141 | both go back |
| Pipes.Pipe.TryRead | src/kernel/pipe.c:88-102 | one attempt of pipe_read over the circular buffer: waits exactly when the model does, and otherwise delivers and removes a prefix of as many bytes as were asked for or are there |
| Pipes.Pipe.TryWrite | src/kernel/pipe.c:104-124 | one turn of pipe_write over the circular buffer: waits, returns early or stores the first bytes of the data, and counts them |
| Pipes.Pipe.Flush | src/kernel/pipe.c:126-147 | pipe_flush, and that the pair is released exactly when both ends have lost their last reference |
| CircBuffer.CircBuffer.Write | src/kernel/utils.c:51-66 | the contents become the last bytes of old contents and source that the buffer can hold, for every size an int can count |
| CircBuffer.CircBuffer.Read | src/kernel/utils.c:30-44 | a prefix of the contents is removed and, as far as the index has not wrapped, delivered; all of it for capacities that divide 2^32 |
| CircBuffer.CircBuffer.PutChar | src/kernel/utils.c:46-48 | the same as a write of one byte |
| CircBuffer.ReadIndexExact | src/kernel/utils.c:38-39 | the 32-bit read index is right exactly when offset+i >= remaining or the capacity divides 2^32 |
| CircBuffer.WindowPut | src/kernel/utils.c:55-56 | storing one byte behind the contents keeps the last of them |
| CircBuffer.LastIsEnd | src/kernel/utils.c:51-66 | the last bytes are an end of the sequence |
| Digits.RoundTrip | src/kernel/utils_common.c:136-185 | for every 32-bit n, parsing the text of n gives n exactly if n is not the least integer |
| Digits.ParseExactly | src/kernel/utils_common.c:136-152 | strtoi of any string of spaces, sign, digits and rest is the signed decimal value of the digits in 32 bits |
| Digits.TextCanonical | src/kernel/utils_common.c:172-185 | the text has a sign exactly below zero, then digits without leading zeros |
| Digits.TextValue | src/kernel/utils_common.c:172-185 | the digits of n have the decimal value n |
| Digits.TextOfLeast | src/kernel/utils_common.c:172-185 | the text of the least integer is "-(", which parses to zero |
| Digits.Itostr | src/kernel/utils_common.c:172-185 | the array holds the text of n and a NUL |
| Digits.Strtoi | src/kernel/utils_common.c:136-152 | the loops of strtoi compute the parse of the string, in 32-bit arithmetic |
| Digits.Reverse | src/kernel/utils_common.c:187-196 | the string is reversed in place |
| Digits.Strlen | src/kernel/utils_common.c:92-99 | the length up to the NUL |

## Left out

- Hardware: port I/O, PIC, IDT, GDT and TSS encoding, stack switching, ATA timing. A context switch sets the running PCB, a disk is its bytes.
- The TLB: a page table write is taken to be seen at once.
- Disk I/O inside paging blocks in the source; each memory manager routine is atomic here, and so is each stretch of kernel code between two points where it can block.
- What happens after the kernel has stopped (no victim, swap area full, address taken, bad fault): the memory manager's model ends with the reason.
- `LINK_NODES` is two statements without braces under the `if` of `reserve_page` (src/kernel/mm.c:397, src/include/utils.h:43-45); the guard is taken to cover both, as meant. As written, the second one stores through NULL for a frame that is on no list.
- Page tables of user pages: an address without a table is a zero entry, and tables that `seek_unused_vaddr` allocates on its way are not counted. A NULL entry pointer in `mm_is_swapped_page`, `mm_is_requested_page`, `mm_is_cow_page` and `mm_share_page` is not modelled.
- Kernel memory running out in `mm_mem_kalloc`, and PCBs running out: creation needs a free PCB.
- `loader_load` refuses a file without the PSO signature; creation here is the rest of it.
- `share_page` on a kernel address (`-ENOPERM`).
- PteWord.KindTests: the way from frame numbers to the twenty base bits and back is stated on bit vectors only (`PteBits.PresentPayload`, `PteBits.OtherPayloads`).
- The closing of files inside `loader_exit` is a series of wake-up events before the exit.
- `loader_setup_task_memory`, task state on the kernel stack, file descriptor tables.
- When zombies are reaped: reaping may happen at any time, not only after a switch back to a task that has run before.
- Memkrypto: `WAIT` does not look at the result of `read`, so a token pipe without writers would not block; pipe ends are open here as long as their process has steps to do, and the page faults of shared pages are not steps. The reader's `read` yields full pages up to the end of the file, as `ext2_file_operate` does on an unchanged file.
- Krypto and KryptoWaits: which of the ways of closing a program run meets depends on file descriptor tables that keep closed entries; all three are covered, for each of the two closes.
- Pipes.Pipe.TryWrite: the value returned to the caller of a `pipe_write` that finds the reader gone is 0 whatever was written before; only the early return is stated.
- Pipes: the kernel page of the buffer, and reads and writes on a device of another class.
- FileWindow.File.Read: sizes and offsets below 2^31, which an `int` can hold.
- FileWindow.File.Write: what arrives on the disk is stated for a whole write of pages, and turn by turn (`FileWindow.File.WriteTurn`) for every other. Pointers past the end of a file count as blocks of its own; the source has zeros there and would write to block 0. Blocks larger than a page (the source divides by zero) are not modelled.
- BlockDevice.BlockDevice.Read: writes are left out; the source gets them right only for whole sectors from a sector boundary. Addresses beyond 32 bits are not modelled.
- BlockWalk.Walk.OperateData: sizes are unbounded; the source needs them below 2^31.
- `path2inode`, the superblock, file creation, FAT, FDD, serial, console, keyboard, VGA, shell.
- `hdd_send` reads its buffer with a size of two; not modelled.
- `itohex`, `strcmp` and the other string routines: easy members only.
