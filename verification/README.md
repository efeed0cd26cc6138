# SkyNetOS kernel core

A model of the parts of the SkyNetOS kernel that carry state and an algorithm, with proofs about them.

| files | what they model |
|---|---|
| `SchedulerState.dfy`, `Scheduler.dfy` | the scheduler's tables: as one value, and in place |
| `Banker.dfy`, `Amounts.dfy` | the Banker's algorithm: exactness of the safety test, safety, deadlock freedom, what moves |
| `Mlfq.dfy`, `Turns.dfy`, `Waiting.dfy`, `Starvation.dfy` | the feedback queues: structure, drain time, whose turn it is and for how long, bounded waiting |
| `Runs.dfy`, `Allotment.dfy` | all scheduler operations together, over whole runs, and one task's history in them |
| `Mailbox.dfy` | a task's mailbox, and when it is a queue |
| `Sstf.dfy`, `DiskScheduler.dfy` | shortest-seek-first: order, cut-off, competitive bound, and the service loop |
| `HeapModel.dfy`, `Heap.dfy` | the heap: its list of blocks, and the headers linked through memory |
| `Pages.dfy`, `Spinlock.dfy`, `LockProgress.dfy` | the page allocator, alone and under its lock with any number of threads |
| `FsMap.dfy`, `FsModel.dfy`, `FileSystem.dfy` | the root directory as a map, on top of the heap |
| `Lanes.dfy`, `Padding.dfy`, `Sha3.dfy` | SHA3-256 around an arbitrary permutation |

Where the kernel updates tables in place there is a class with loops, proved against functions on the
tables' value (`View`); what the kernel promises is proved about those functions. Numbers of tasks, resources,
pages, threads and the heap's size and header are parameters. Run `dafny verify dfyconfig.toml`.

Where the code differs from its documentation or does less than it seems to, the model follows the code:

- `task_create` accepts demands beyond the system; that, and only that, lets creation make a safe state unsafe
  (`Banker.CreateSafe`).
- `release_resources` accepts negative amounts, which take resources without the safety test: exactly the amounts
  with a negative component can make a safe state unsafe (`Banker.ReleaseHarmlessIff`; one instance is
  `Banker.NegativeReleaseUnsafe`, and `Banker.NegativeRelease` says which request such a release stands for).
- `task_terminate` does not unqueue, and `schedule` called over a running pid forgets it. Each breaks the queues exactly
  in those cases (`Mlfq.TerminateKeepsIff`, `Mlfq.ScheduleKeepsIff`); the shell's kill command does the first and
  `tests/test_scheduler.c` the second.
- At the lowest level the quantum is never refilled, so from its 28th own tick on every tick expires it
  (`Allotment.AccountTells`).
- A disk request that is 999999 or more tracks away whenever it would be its turn is cleared unserved
  (`Sstf.LimitedIsPrefix`, `Sstf.LeftBehind`).
- `write_file` without room loses the old data but keeps its length (`FileSystem.FileTable.WriteFile`); the error
  handler halts there.
- A page owned by the kernel can be freed with any pid, although the documents call pages strictly bound: that holds
  of exactly the pages the kernel does not own (`Pages.StrictlyBoundIff`, `Pages.KernelPageFreed`).
- The mailbox is not a queue, although the header promises the oldest message: it hands out messages in order of
  arrival exactly when nothing is sent while it is partly drained (`Mailbox.OldestFirstIff`, `Mailbox.YoungerFirst`).
- `write_file` may write over a directory's table, and `delete_directory` then reads the new bytes as one; it requires
  that this has not happened (`FsMap.TablesStayEmpty`).
- The documents give a 1 MB heap and 1024 pages, the code 32 MB and 8192; the sizes are parameters here.

Caller obligations the code leaves unchecked appear as `requires`, or as `Proper` and `Allowed` for runs:
amounts are not negative, demands fit the system, pids are not killed while live and no dispatch is made over a
running one when the queues are in question, pointers freed come from the heap, file names fit and there are fewer than
100 entries. The page pool lies within the 32-bit address space.

## Model

| member | source | states |
|---|---|---|
| Scheduler.Kernel.constructor | src/scheduler.c:5-28 | A new kernel has no live task, nothing queued, nothing running, and all resources available. |
| Scheduler.Kernel.TaskCreate | src/scheduler.c:30-63 | Answers with the lowest free slot, or -1 exactly when the count says full or no slot is free; the tables become those of `Create`, whose effect `CreateInv`, `CreateSafe`, `CreateKeeps` and `CreatedStanding` characterise. |
| Scheduler.Kernel.TaskTerminate | src/scheduler.c:65-77 | For any pid, dead or out of range included, the tables become those of `Terminate`. |
| Scheduler.Kernel.IsSafeState | src/scheduler.c:79-118 | In any state the greedy loop answers yes only if some order of all live tasks lets each reach its maximum in turn; and also if there is one, unless somebody holds a negative amount or the count misses a live task. |
| Scheduler.Kernel.RequestResources | src/scheduler.c:120-150 | Any call is granted whole, and then the pid was live, the request within its need and within what is free, and the state after it safe; or leaves every table as it was. It is granted exactly then, unless somebody holds or is left with a negative amount. |
| Scheduler.Kernel.ReleaseResources | src/scheduler.c:152-162 | For any pid and amounts the tables become those of `Release`, which moves back every component the pid holds and no other (`Amounts.ReleaseMoves`, `ReleaseAll`) and undoes a granted request (`ReleaseUndoesRequest`). |
| Scheduler.Kernel.Dispatch | src/scheduler.c:164-184 | The shifting loop takes the head of the highest non-empty queue and closes the gap; nothing else moves. |
| Scheduler.Kernel.TaskYield | src/scheduler.c:186-205 | For both kinds of yield the tables become those of `Yield`, which puts the yielder behind everyone ready at or above its level and runs the first of these (`Turns.YieldHandsOver`). |
| Scheduler.Kernel.PriorityBoost | src/scheduler.c:207-218 | Moving the lower queues up one by one gives the state of `Boost`. |
| Scheduler.Kernel.SystemTick | src/scheduler.c:226-245 | In any state the tables become those of `Tick`, of which `Turns.SliceKept`, `SliceCompletes`, `SliceHandsOver` and `IdleTick` say who runs when. |
| Scheduler.Kernel.TaskSetWork | src/scheduler.c:328-331 | Changes only the work of a live pid. |
| Banker.StuckIsUnsafe | src/scheduler.c:89-117 | Exchange argument: if after letting some set finish nobody who remains can finish, no other order would have done better. |
| Banker.SafeIffNotStuck | src/scheduler.c:79-118 | A state is safe exactly when no set of live tasks is deadlocked in it. |
| Banker.TrialInv | src/scheduler.c:120-135 | The trial allocation keeps conservation, need + allocation = maximum and non-negativity exactly when the request takes back no more than is held. |
| Banker.RequestSafe | src/scheduler.c:120-150 | A request leads from a safe state to a safe state; a denied one to the same state. |
| Banker.ReleaseInv | src/scheduler.c:152-162 | A release keeps the accounts exactly when no component is more negative than need or availability allow. |
| Banker.ReleaseSafe | src/scheduler.c:152-162 | A release of any non-negative amounts, partial or refused, keeps a safe state safe. |
| Amounts.RequestMoves | src/scheduler.c:133-138 | A granted request moves exactly the amounts asked for from the pool to the pid and changes nothing else. |
| Amounts.FullGrantFills | src/scheduler.c:120-150 | Granted all it needs a task holds its maximum demand and needs nothing. |
| Amounts.DeniedIffDeadlock | src/scheduler.c:120-150 | A request within need and availability is denied exactly when its grant would leave a deadlocked set. |
| Amounts.ReleaseMoves | src/scheduler.c:155-160 | A release moves back each amount that the pid holds, all of it, and nothing of the others. |
| Amounts.ReleaseUndoesRequest | src/scheduler.c:120-162 | Releasing what was just granted restores every table. |
| Amounts.RequestUndoesRelease | src/scheduler.c:120-162 | In a safe state what is released can be requested again at once, which restores every table. |
| Amounts.ReleaseAll | src/scheduler.c:152-162 | Releasing all it holds leaves a task with nothing, its whole maximum to ask for, and the pool larger by that. |
| Banker.ReleaseHarmlessIff | src/scheduler.c:152-162 | Exactly the amounts without a negative component can be released by anyone in any safe state without making it unsafe: for every other there is a safe state and a pid whose release, within all accounts, makes it unsafe. |
| Banker.NegativeReleaseUnsafe | src/scheduler.c:152-162 | A concrete safe state that a negative release makes unsafe. |
| Banker.TerminateSafe | src/scheduler.c:65-77 | Terminating any pid keeps the accounts and keeps a safe state safe. |
| Amounts.TerminateReturns | src/scheduler.c:65-77 | A live pid returns all it holds; no other task, no queue and no current pid changes. |
| Banker.CreateInv | src/scheduler.c:30-63 | Creation keeps the accounts exactly when the maximum demand is non-negative. |
| Banker.CreateSafe | src/scheduler.c:30-63 | Creation keeps a safe state safe exactly when the maximum demand is at most the total of each resource; the code does not check it. |
| Amounts.CreateGivesNothing | src/scheduler.c:50-54 | A new task may ask for all of its demand, holds nothing, and the pool is as before. |
| Amounts.NothingHappens | src/scheduler.c:30-331 | Refused creation, and request, release, termination and new work for a pid that is not alive, change nothing. |
| Amounts.RefusedIffFull | src/scheduler.c:30-34 | Creation is refused exactly when every slot is alive; otherwise it gets the lowest that is not. |
| Banker.FinishSafe | src/scheduler.c:65-150 | A pid whose need is free is granted all of it, and its termination leaves a safe state. |
| Banker.DeadlockFree | src/scheduler.c:65-150 | From every safe state some order of the live tasks has every full request granted and every task terminated, ending with the original totals available. |
| Mlfq.QueuedExactlyOnce | src/scheduler.c:30-63 | Over all queues a ready pid occurs exactly once, in the queue of its own level; running and terminated ones never; the running one is the current one. |
| Mlfq.QueuesFit | src/scheduler.c:10-13 | All queues together hold at most the live tasks less the running one, so no queue overruns its row. |
| Mlfq.CreateHasRoom | src/scheduler.c:34-57 | Whenever a slot is free the top queue has room for it. |
| Mlfq.CreateKeeps | src/scheduler.c:30-63 | Creation keeps the queue structure. |
| Mlfq.ScheduleTakesFirst | src/scheduler.c:164-184 | A dispatch runs the first in line, longest-queued of the highest level, and leaves the rest of the line in order. |
| Mlfq.ScheduleKeepsIff | src/scheduler.c:164-184 | A dispatch keeps the queue structure exactly when nothing was running or nothing is queued. |
| Mlfq.YieldKeeps | src/scheduler.c:186-205 | Every yield keeps the queue structure. |
| Mlfq.BoostKeeps | src/scheduler.c:207-218 | A boost makes the top queue Q0 ++ Q1 ++ Q2, refills exactly the tasks that were in Q1 and Q2, and leaves the running one alone. |
| Mlfq.TickKeeps | src/scheduler.c:226-245 | Every tick keeps the queue structure. |
| Mlfq.TerminateKeepsIff | src/scheduler.c:65-77 | Termination from outside keeps the queue structure exactly when the pid was dead already: it never unqueues. |
| Mlfq.TickDrains | src/scheduler.c:226-245 | While a task is left, every tick takes exactly one off the drain time, whatever it does. |
| Turns.YieldHandsOver | src/scheduler.c:186-205 | After a yield of either kind all pids ready at or above the level the yielder comes to precede it: the first of them runs and it stands last at its level, or there are none and it runs on; all others keep order, standing and work. |
| Turns.IdleYield | src/scheduler.c:187 | With nobody running a yield changes nothing, and dispatches nobody. |
| Turns.SliceKept | src/scheduler.c:226-245 | For every tick before its slice is over, the quantum or at least one tick or its work if less, the dispatched task runs, only its quantum and work count down, and nothing else changes. |
| Turns.SliceCompletes | src/scheduler.c:226-245 | If its work ends with the slice the task is terminated, its resources returned, the processor idle, and everyone else as before. |
| Turns.SliceHandsOver | src/scheduler.c:189-201 | Otherwise the task is then demoted and refilled, or not at the lowest level, and hands over as in a yield; it runs on exactly if nobody is ready at or above its level. |
| Turns.IdleTick | src/scheduler.c:242-244 | An idle tick dispatches the first in line, or does nothing. |
| Mlfq.DrainExact | src/scheduler.c:226-245 | With finite work and ticks only, no task is left from tick `DrainTime` on, and not before. |
| Mlfq.IdleDrainTime | src/scheduler.c:226-245 | Started idle the drain time is the sum of the work plus the number of tasks. |
| Waiting.TickWait | src/scheduler.c:164-245 | A tick dispatches a waiting pid or strictly lowers a measure of what is ahead of it. |
| Runs.AccountsStep | src/scheduler.c:30-162 | Each resource operation, killing any pid included, keeps accounts and safety. |
| Runs.AccountsRunSafe | src/scheduler.c:30-162 | So does every run of them. |
| Runs.StepSound | src/scheduler.c:30-245 | Every permitted operation keeps accounts, safety and queue structure together. |
| Runs.InitSound | src/scheduler.c:15-28 | The fresh scheduler has all three, no live task, nothing queued or running, and everything available. |
| Runs.ReachableDeadlockFree | src/scheduler.c:18-245 | In every state a run from a fresh scheduler reaches, everyone can still be served to the end. |
| Runs.DrainsAndReturns | src/scheduler.c:226-245 | Started idle with finite work, the system is empty exactly from tick (sum of work + number of tasks) on, and then everything is available again. |
| Allotment.CreatedStanding | src/scheduler.c:34-57 | A new pid has used nothing of the top quantum and has endless work, at the tail of the top queue, and no other task changes. |
| Allotment.AccountTells | src/scheduler.c:186-205 | Level and quantum of a live task are a function of the ticks it has used: level 2 from exactly the 12th, and no refill there. |
| Allotment.AccountExact | src/scheduler.c:30-245 | In every permitted run, whatever the other tasks do: whether a pid lives, the ticks it has used and the work it has left follow from its own births, ticks, full yields, boosts and new work. |
| Allotment.AllotmentExact | src/scheduler.c:186-245 | Between its boosts, full yields and new work, exactly the ticks a pid runs for count, however often it yields early and whatever is done to others. |
| Starvation.OpWait | src/scheduler.c:30-331 | No operation lengthens the wait of a ready pid, yields, boosts, new work and dispatch by hand included, except a creation, by 16 and only below the top queue; a tick shortens it. |
| Starvation.DispatchedWithin | src/scheduler.c:30-331 | Every ready pid runs within its measure and what creations add to it. |
| Starvation.BoundedWait | src/scheduler.c:30-331 | With n live tasks no ready pid of any level waits more than 17(n - 1) + 1 ticks in a run without creation and boost, whatever is yielded, requested, released or given as work in between. |
| Starvation.EveryRunBounded | src/scheduler.c:30-331 | In every permitted run at all a ready pid waits at most 20(n - 1) + 1 ticks and 16 more per task created. |
| Starvation.StarvationFree | src/scheduler.c:30-331 | A pid at position j of the top queue runs within 5j + 17 ticks, whatever else is done meanwhile. |
| Starvation.BoostPreventsStarvation | src/scheduler.h:104-107 | After a boost each of n live tasks runs within 5n + 12 ticks, whatever else is done meanwhile. |
| Mailbox.SendInbox | src/scheduler.c:265-279 | A message goes in at the first gap by slot, before the messages of later slots; nothing is lost or added. |
| Mailbox.ReceiveInbox | src/scheduler.c:294-307 | The first message by slot is taken, the others stay in order. |
| Mailbox.SendInOrderIff | src/scheduler.c:265-279 | A send keeps the messages in order of arrival exactly when no empty slot precedes a full one, or none is empty. |
| Mailbox.OldestFirstIff | src/scheduler.h:132-135 | In a run from an empty mailbox it can always be emptied oldest first exactly when nothing is sent while it is partly drained. |
| Mailbox.YoungerFirst | src/scheduler.c:265-307 | Send, send, receive, send: the third message stands before the second. |
| Mailbox.NumbersStandIn | src/scheduler.c:265-307 | Where messages go and come from does not depend on what they say. |
| Mailbox.TaskMailbox.constructor | src/scheduler.c:43-49 | An empty mailbox. |
| Mailbox.TaskMailbox.Clear | src/scheduler.c:44-49 | What creating a task leaves of its mailbox: nothing. |
| Mailbox.TaskMailbox.IpcSend | src/scheduler.c:255-283 | Sent exactly to a live receiver with room; the message, cut to 63 bytes, goes where `Send` puts it, otherwise nothing changes. |
| Mailbox.TaskMailbox.IpcReceive | src/scheduler.c:285-311 | Answers exactly when the receiver lives and has a message, with the first by slot, which is gone afterwards. |
| Sstf.NearestIsNearest | src/disk_scheduler.c:50-59 | The choice is a pending request at least distance, the lowest index among equals, and none exactly when none is pending. |
| Sstf.OrderIsGreedy | src/disk_scheduler.c:46-67 | Every hop goes to a nearest request not yet served, the lowest index among equals. |
| Sstf.OrderIsPermutation | src/disk_scheduler.c:46-67 | The shortest-seek order serves every request exactly once. |
| Sstf.LimitedIsPrefix | src/disk_scheduler.c:46-67 | With the cut-off 999999 the order is a prefix of the textbook one, and all of it exactly when no hop of the textbook order reaches the cut-off. |
| Sstf.LeftBehind | src/disk_scheduler.c:46-67 | A request that is dropped is at least the cut-off away from where the head stops. |
| Sstf.SweepBound | src/disk_scheduler.c:46-67 | Crossings of the covered stretch grow so fast that together they cost at most the stretch. |
| Sstf.TravelWithinTwice | src/disk_scheduler.c:46-68 | The head travels at most twice the span of head and tracks. |
| Sstf.TwoCompetitive | src/disk_scheduler.c:26-68 | At most twice the movement of any route that serves the same requests. |
| DiskScheduler.Disk.constructor | src/disk_scheduler.c:7-13 | Starts with no request. |
| DiskScheduler.Disk.Submit | src/disk_scheduler.c:15-24 | Accepted exactly while fewer than 64 are queued; appended in order. |
| DiskScheduler.Disk.FindNext | src/disk_scheduler.c:47-59 | The inner loop finds the nearest pending request below the cut-off, or -1. |
| DiskScheduler.Disk.ProcessRequests | src/disk_scheduler.c:30-71 | The printed tracks are the cut-off order, the printed total is the distance along them, and the queue is empty afterwards. |
| DiskScheduler.TravelSnoc | src/disk_scheduler.c:61-66 | The total is zero at first and grows with each served track by its distance from the one before. |
| DiskScheduler.NarrowQueueServed | src/disk_scheduler.c:30-71 | If head and tracks span less than the cut-off, every request is served once, within twice the span and twice any route. |
| DiskScheduler.FarRequestDropped | src/disk_scheduler.c:47-61 | A request 999999 tracks away is cleared without being served, one at 999998 is served. |
| HeapModel.Separation | src/memory_management.c:86-95 | Live blocks are disjoint and inside the heap. |
| HeapModel.MallocKeeps | src/memory_management.c:104-127 | Success adds exactly one live block of the requested size plus at most a header and 8; failure changes nothing; tiling and coalescing are kept. |
| HeapModel.MallocFailsIff | src/memory_management.c:104-127 | Fails exactly when no stretch of the heap clear of every live block holds a header and the payload. |
| HeapModel.MallocLowest | src/memory_management.c:106-108 | First fit: of all places clear of every live block that hold a header and the payload the lowest is taken. |
| HeapModel.MallocCuts | src/memory_management.c:109-117 | The block is cut to the requested size exactly when room for a header and more than 8 bytes is left beside it, and is otherwise as large as there is room. |
| HeapModel.CoalesceKeeps | src/memory_management.c:135-144 | The pass keeps tiling and live blocks and leaves no two free neighbours. |
| HeapModel.FreeKeeps | src/memory_management.c:129-146 | Freeing keeps the shape and removes only the blocks at that address from the live ones. |
| HeapModel.FreeLive | src/memory_management.c:129-146 | Freeing a live block removes exactly it: no other block moves, shrinks or dies. |
| HeapModel.Canonical | src/memory_management.c:89-146 | The block list is determined by the live blocks alone. |
| HeapModel.FreeUndoesMalloc | src/memory_management.c:104-146 | Freeing what was just allocated restores the list exactly. |
| HeapModel.FreesCommute | src/memory_management.c:129-146 | Two frees give the same list in either order. |
| HeapModel.EmptyIsInitial | src/memory_management.c:97-146 | With nothing live the list is the single initial block. |
| HeapModel.RunKeeps | src/memory_management.c:97-146 | In every run the shape holds and a live block stays where and as large as it is until freed. |
| HeapModel.ReachableHeap | src/memory_management.c:97-146 | Every run from the fresh heap keeps the shape, and the list is the initial block exactly when nothing is live. |
| HeapModel.FreeingAllRestores | src/memory_management.c:97-146 | From any heap in shape a run of frees, in any order, brings back the initial block exactly when it names every live pointer. |
| Heap.KernelHeap.constructor | src/memory_management.c:97-102 | One free block covers the heap. |
| Heap.KernelHeap.Malloc | src/memory_management.c:104-127 | The pointer walk does to the linked headers what `HeapModel.Malloc` does to their list, and returns its pointer. |
| Heap.KernelHeap.Take | src/memory_management.c:108-121 | The block is taken whole or split. |
| Heap.KernelHeap.CutDown | src/memory_management.c:110-118 | Splitting links the remainder in right after the block taken. |
| Heap.KernelHeap.Free | src/memory_management.c:129-146 | Marking and coalescing the linked headers is `HeapModel.Free`; NULL is ignored. |
| Heap.KernelHeap.CoalescePass | src/memory_management.c:136-144 | The loop ends, and leaves the coalesced list. |
| Heap.KernelHeap.Absorb | src/memory_management.c:138-140 | Merging unlinks exactly the next block. |
| Pages.NextFit | src/memory_management.c:46-58 | Fails exactly when every page is taken; otherwise takes the free page nearest going round from the cursor. |
| Pages.AllocTakes | src/memory_management.c:48-53 | Success marks the page answered with as the caller's and no other; failure changes nothing. |
| Pages.OwnerKeeps | src/memory_management.c:65-80 | A taken page is given back by exactly the calls that name it with the pid of its owner, or with any pid if the kernel owns it; no allocation touches it. |
| Pages.FreeTouches | src/memory_management.c:65-80 | Giving back moves neither the cursor nor any page but the one named, and that one only if taken. |
| Pages.StrictlyBoundIff | docs/OS_Documentation.md:8 | Exactly the taken pages the kernel does not own are strictly bound to their owner. |
| Pages.KernelPageFreed | src/memory_management.c:71-78 | Pid 0 gives back a page the kernel owns. |
| Pages.OnlyPageStarts | src/memory_management.c:66-70 | Despite wrapping subtraction only a start address means a page. |
| Pages.StrayPointer | src/memory_management.c:65-80 | A pointer that starts no page of the pool changes nothing. |
| Pages.Allocator.constructor | src/memory_management.c:26-33 | Every page is free, the cursor at the first. |
| Pages.Allocator.AllocateProcessMemory | src/memory_management.c:41-59 | NULL and unchanged above the page size; otherwise the page and cursor are those of `Alloc`, which takes the nearest free page from the cursor (`NextFit`), no other (`AllocTakes`), and leaves the cursor behind it (`Spinlock.NextFitHistory`); NULL only when full. |
| Pages.Allocator.FreeProcessMemory | src/memory_management.c:65-80 | For any pointer and pid the table becomes that of `Pages.Free`. |
| Spinlock.CallIsSequential | src/memory_management.c:41-80 | Access by access, a call left alone does what the sequential operation does, with its answer. |
| Spinlock.StepKeeps | src/sync.c:8-24 | Every step of every thread keeps: one thread inside, the lock tells whether, the table is on the way to where the call inside will take it. |
| Spinlock.Linearizable | src/sync.c:8-24 | Every interleaving of any number of threads has one thread inside at most and the history and table of one sequential run. |
| Spinlock.OneHolder | src/memory_management.c:41-80 | Two allocations answer with one page only if a call between them gave it back. |
| Spinlock.NextFitHistory | src/memory_management.c:46-54 | In every history the allocation after one answered with page a, whatever is given back or fails in between, answers with the free page q for which (q - a - 1) modulo the number of pages is least, or with none exactly when all are taken. |
| Spinlock.FirstAllocation | src/memory_management.c:26-58 | On a fresh table the first allocation answers with page 0. |
| LockProgress.NeverDeadlocks | src/sync.c:8-24 | In every state an interleaving reaches, every call under way can be brought to its end. |
| LockProgress.CanStarve | src/sync.c:8-24 | The lock is not fair: a thread that takes its turns can spin through any number of calls of another. |
| FsMap.MapOperations | src/file_system.c:29-139 | Appending a new name, replacing an entry and dropping one are insertion, update and removal on the map of names to entries. |
| FsMap.ReadsLastWrite | src/file_system.c:88-122 | In any history of calls a file reads as what was last written to it, whatever is done to other names. |
| FsMap.DeletedIsGone | src/file_system.c:113-175 | In any history a deleted file or directory is not found until it is created again. |
| FsMap.CreatedReads | src/file_system.c:40-77 | In any history a new file reads empty, a new directory as its table, until touched. |
| FsMap.TablesStayEmpty | src/file_system.c:61-175 | Unless a history writes over a directory, the table of every directory says that nothing is in it. |
| FsModel.AddKeeps | src/file_system.c:46-53 | A new entry of fresh blocks keeps names unique and live blocks exactly the owned ones. |
| FsModel.DropKeeps | src/file_system.c:127-135 | Dropping an entry with its blocks keeps that and the order of the others. |
| FsModel.ReplaceKeeps | src/file_system.c:91-104 | Exchanging an entry's data block keeps that and every other entry. |
| FileSystem.FileTable.constructor | src/file_system.c:13-23 | An empty root on an empty heap. |
| FileSystem.FileTable.FindFileIndex | src/file_system.c:29-35 | The first entry of that name, or -1 exactly when there is none. |
| FileSystem.FileTable.CreateFile | src/file_system.c:40-56 | A new empty entry at the end; exactly a known name or lack of room is refused, changing nothing. A step of the map. |
| FileSystem.FileTable.CreateDirectory | src/file_system.c:61-86 | The same for a directory with an empty table; when only the second block is lacking, giving the first back restores heap and directory exactly. A step of the map. |
| FileSystem.FileTable.WriteFile | src/file_system.c:91-108 | The entry, a directory too, reads as the new bytes and nothing else changes; without room it stays readable exactly if it was empty. A step of the map unless there is no room. |
| FileSystem.FileTable.ReadFile | src/file_system.c:113-122 | What the entry holds, a directory too, or not found. A step of the map. |
| FileSystem.FileTable.DeleteFile | src/file_system.c:127-139 | Removes exactly that entry, the others in order; both blocks are freed once. A step of the map. |
| FileSystem.FileTable.DeleteDirectory | src/file_system.c:144-175 | The same, for directories only, as long as the table was not written over. |
| FileSystem.FindIsLookup | src/file_system.c:29-35 | Finding a name is looking it up in the map of the directory. |
| Lanes.LaneByte | src/sha3.c:80-86 | Each byte comes back from the little-endian lane it was packed into. |
| Lanes.LaneIsWord | src/sha3.c:82-84 | A lane is its eight bytes side by side, least significant first. |
| Padding.PadIsFips | src/sha3.c:92-96 | The appended bytes are, bit for bit, the suffix 01 and pad10*1 of sections 5.1, 6.1 and B.2 of FIPS 202. |
| Padding.UnpadPad | src/sha3.c:92-96 | The message is recovered from its padding. |
| Sha3.MessageRecovered | src/sha3.c:78-105 | The message is recovered from the lanes absorbed. |
| Sha3.DistinctMessages | src/sha3.c:78-105 | Distinct messages are absorbed as distinct block sequences. |
| Sha3.XoredAt | src/sha3.c:80-86 | Absorbing a block changes each of the first 17 words by its own lane and no other word. |
| Sha3.XorBlock | src/sha3.c:80-86 | The packing loops xor exactly the lanes of the block. |
| Sha3.LastBlock | src/sha3.c:92-96 | The buffer filled for the last block is the padding of what is left of the message. |
| Sha3.Sha3Of256 | src/sha3.c:71-113 | From 25 zero words on each block of lanes of the padded message is mixed into the first 17 words and the whole permuted, whatever the permutation; the digest is the first four words of the last state, and the buffer after it is untouched. |
| Sha3.DigestTrace | src/sha3.c:71-113 | The same of the recursive sponge: its states form such a trace, one per block. |
| Sha3.WriteWord | src/sha3.c:108-112 | Eight bytes of the digest are written, and no other byte of the buffer. |

## Left out

- FileSystem.FileTable.DeleteDirectory: the loop over a directory's own entries; a table counts none unless it was written over, and then its pointers point nowhere.
- Mailbox.TaskMailbox.IpcSend: the mutex around it; within one thread it is never contended.
- Scheduler.Kernel.TaskCreate: thread count, mutex, time slice and the stored pid, which equals the slot; none is read by the modelled functions.
- Spinlock.Linearizable: accesses are sequentially consistent; weak memory order is not modelled.
- `keccakf`: the permutation is a parameter. The rotation table in `src/sha3.c` lines 23 to 26 holds 44 and 65 where section 3.2.2 of FIPS 202 has 41 and 56, so the digest is not SHA3-256, and rotating by 65 is undefined.
- Blocking mutexes, `task_block` and `task_unblock`: a blocked pid is made ready and queued by the yield that follows, and returns without the lock.
- `thread_create` and `get_task_info`: a bounded counter and a copy.
- 32-bit wrap-around of counters, quanta, distances and allocation amounts: integers are unbounded, except for page pointers.
- Block contents, alignment and struct padding: the heap models headers and extents; `file_t` and data blocks are looked up by address.
- Printing, port and screen I/O, shell, GUI, boot code, login and the string helpers: no algorithm of their own.
