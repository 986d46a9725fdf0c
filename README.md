# SimpleOS memory, queue and scheduler core in Dafny

This project models the core of SimpleOS, a teaching operating system simulator:

- **The paging memory library** (`src/libmem.c`):
  - the first-fit region allocator over a virtual area's free-region list, with the region symbol table (`__alloc`, `__free`, `liballoc`, `libfree`, `get_free_vmrg_area`, `get_symrg_byid`, `enlist_vm_freerg_list`);
  - page lookup with victim selection from `fifo_pgn` (`pg_getpage`, `find_victim_page`);
  - byte access through the page table (`pg_getval`, `pg_setval`, `__read`, `__write`, `libread`, `libwrite`);
  - the release of a process's frames (`free_pcb_memph`).
- **The virtual-area helpers** (`src/mm-vm.c`): `get_vma_by_num`, `get_vm_area_node_at_brk`, `validate_overlap_vm_area`, `inc_vma_limit` and `__mm_swap_page`.
- **The bounded process queue** (`src/queue.c`) and **the scheduler** (`src/sched.c`):
  - the multi-level build, with one queue per priority level;
  - the single build, with `ready_queue` and `run_queue`.
- **The kill-all system call** (`src/sys_killall.c`): the case-insensitive substring test `path_contains` and the in-place removal of matching processes from the running list and from every ready level.
- **The bookkeeping of the memory visualiser** (`mem_visual.py`): `ProcessState.allocate`, `ProcessState.deallocate` and the page round-up.

Modules follow the source files:

| module | file | source |
|---|---|---|
| `Common` | `common.dfy` | header structs and constants |
| `MmVm` | `mmvm.dfy` | `mm-vm.c` |
| `LibMem` | `libmem.dfy` | `libmem.c` |
| `QueueOps` | `queue.dfy` | `queue.c` |
| `Sched` | `sched.dfy` | `sched.c` |
| `KillAll` | `killall.dfy` | `sys_killall.c` |
| `MemVisual` | `visual.dfy` | `mem_visual.py` |

How the C state is modelled:

- Structs the code updates in place are classes: `mm_struct` is `MmStruct`, `memphy_struct` is `Memphy`, `queue_t` is `Queue` and `pcb_t` is `Pcb`. The static queues of `sched.c` are the class `Scheduler`.
- Linked lists (areas, free regions, `fifo_pgn`) are sequence fields that the methods reassign.
- The queue's fixed array stays an `array`, and `dequeue` and the kill-all loops shift it in place.
- The allocator's invariant (`AreaConsistent`) is proved to be kept by what `__alloc` and `__free` do to an area (`LibMem.AllocKeepsConsistent`, `LibMem.FreeKeepsConsistent`):
  - free nodes and bound regions never share a byte;
  - bound regions are pairwise apart;
  - everything lies below `vm_end`.

Where the code and its comments disagree, the model follows the code:

- `path_contains` says an empty substring "is always found" but returns 0. The model returns 0 (`KillAll.EmptyNameMatchesNothing`).
- `validate_overlap_vm_area` checks the first area's free list whatever `vmaid` is, and the model does the same.
- `__write` returns 0 whatever `pg_setval` returned, and the model does the same.

## Model

| member | source | states |
|---|---|---|
| Common.RoundUpToPage | mem_visual.py:34-35 | the result is a multiple of the page size, lies in [n, n + 256), and is n itself when n is already whole pages |
| MmVm.PageAlignSz | src/mm-vm.c:124 | `PAGING_PAGE_ALIGNSZ`: the smallest multiple of the page size that is at least n |
| MmVm.GetVmaByNum | src/mm-vm.c:18-37 | None for an empty area list; otherwise the first area whose id is at least `vmaid`, with every earlier area having a smaller id |
| MmVm.FirstVmaFrom | src/mm-vm.c:25-34 | the list walk resumed at area k stops at the first id not below `vmaid` |
| MmVm.AnyOverlap | src/mm-vm.c:100-105 | true exactly when some free node intersects the half-open candidate range |
| MmVm.ValidateOverlapVmArea | src/mm-vm.c:92-107 | -1 exactly when there is no area or the range meets a node of the first area's free list, else 0 |
| MmVm.GetVmAreaNodeAtBrk | src/mm-vm.c:66-83 | None when the area is missing, otherwise the range [vm_end, vm_end + alignedsz) of that area |
| MmVm.IncVmaLimit | src/mm-vm.c:115-166 | invalid id, missing area or overlap give -1 with the area list unchanged; otherwise the break moves by the size and the end by the page-aligned amount, the slack goes to the head of the free list, and the result is that amount, or -1 on a failed mapping after the area has already grown |
| MmVm.GrowShape | src/mm-vm.c:139-159 | growth adds exactly the page-aligned amount, and the new head of the free list is exactly [sbrk, vm_end) |
| MmVm.GrowMonotone | src/mm-vm.c:139-142 | starting from sbrk <= vm_end, growth keeps sbrk <= vm_end and never moves either field down |
| MmVm.GrowSequence | test/testvmem.c:149-196 | growing a fresh area by 300, 400 and 100 bytes gives (sbrk, vm_end) = (300, 512), (912, 1024) and (1124, 1280) |
| MmVm.MmSwapPage | src/mm-vm.c:39-56 | the first bytes of RAM frame vicfpn and SWAP frame swpfpn trade places, and every other byte stays |
| LibMem.InitConsistent | test/testvmem.c:102-130 | the state a new process starts from meets the allocator invariant |
| LibMem.AsWrittenAdmitsOnePastEnd | src/libmem.c:55-61 | the written slot-id test accepts `PAGING_MAX_SYMTBL_SZ`, one past the table's last slot |
| LibMem.GetSymrgById | src/libmem.c:55-61 | the lookup with the slot-id test as intended: the slot index exactly for ids in [0, `PAGING_MAX_SYMTBL_SZ`), and None (NULL) otherwise; as written, line 57 also lets `PAGING_MAX_SYMTBL_SZ` through (see Findings) |
| LibMem.SymIdTestsDifferOnlyAtMax | src/libmem.c:55-61 | the written test and the intended test disagree on `PAGING_MAX_SYMTBL_SZ` and on no other id |
| LibMem.FirstFit | src/libmem.c:627-645 | the index of a node at least size bytes long with every earlier node shorter, or None when no node is long enough |
| LibMem.FirstFitFrom | src/libmem.c:627-645 | the same search resumed at node k |
| LibMem.CarveCoverage | src/libmem.c:631-641 | after carving, a byte is free exactly when it was free and lies outside the range handed out, and that range was free |
| LibMem.CarveFrom | src/libmem.c:631-641 | every node left by carving lies inside the node it comes from |
| LibMem.CarveKeepsApart | src/libmem.c:631-641 | carving keeps the free nodes below vm_end and pairwise apart |
| LibMem.BindKeepsApart | src/libmem.c:79-86 | binding the carved range to a slot keeps the table entries below vm_end and pairwise apart |
| LibMem.CarveBindApart | src/libmem.c:79-86 | after carving and binding, no free node meets a table entry |
| LibMem.FitKeepsConsistent | src/libmem.c:79-92 | a first-fit allocation keeps the allocator invariant |
| LibMem.GrowKeepsConsistent | src/libmem.c:94-127 | allocation by growing the area keeps the allocator invariant, whether or not the mapping succeeds |
| LibMem.FreeKeepsConsistent | src/libmem.c:170-214 | returning a bound region to the free list and clearing its slot keeps the allocator invariant |
| LibMem.GetFreeVmrgArea | src/libmem.c:605-649 | on success, [s, s + size) where s starts the first node long enough, and that node is unlinked on an exact fit or else shortened from the front; on failure, -1 and nothing changes |
| LibMem.AllocBindsRange | src/libmem.c:71-128 | a successful allocation binds exactly [addr, addr + size), taken from free space (first fit) or starting at the old vm_end |
| LibMem.AllocKeepsConsistent | src/libmem.c:71-128 | `__alloc` keeps the allocator invariant of the area it works on |
| LibMem.AllocByFitConsistent | src/libmem.c:79-90 | when some free node fits, the carved list and the bound slot keep the allocator invariant |
| LibMem.AllocByGrowthConsistent | src/libmem.c:91-127 | when nothing fits, the grown area keeps the allocator invariant, with the slot bound on success and untouched on failure |
| LibMem.AllocFirstStep | test/testvmem.c:224-266 | 200 bytes on a fresh area fit nowhere, so the area grows to [0, 256) with sbrk 200 and the range starts at 0 |
| LibMem.AllocSecondStep | test/testvmem.c:224-266 | 100 more bytes fit in no free node, so the area grows again and the range starts at the old end, 256 |
| LibMem.AllocScenario | test/testvmem.c:224-266 | on a fresh process, allocating 200 bytes gives address 0 and allocating 100 more gives 256 |
| LibMem.Alloc | src/libmem.c:71-128 | an empty area list gives -1 with nothing changed; otherwise the return code, address, area and symbol table are those `AllocInArea` gives for the area the id selects, and nothing else in the area list changes |
| LibMem.Free | src/libmem.c:170-214 | 0 exactly when the id is inside the table, the slot holds a range and an area exists; then the range is linked into that area's free list and the slot becomes (0, 0); otherwise -1 and nothing changes |
| LibMem.LibAlloc | src/libmem.c:221-242 | -1 for a NULL process or an id outside the table; otherwise the outcome of `__alloc` on area 0 |
| LibMem.LibFree | src/libmem.c:250-264 | -1 for an id outside the table; otherwise 0 exactly when the slot holds a range and an area exists, and then the range is linked into area 0's free list, the slot becomes (0, 0) and every other slot stays; on failure nothing changes |
| LibMem.FreeTwice | src/libmem.c:186-207 | the first free clears the slot to (0, 0), so a second free of the same slot fails at the empty-range test |
| LibMem.EnlistVmFreergList | src/libmem.c:34-48 | a range holding no byte gives -1 and changes nothing; otherwise it is linked at the head of the first area's free list |
| LibMem.PhysAddrInjective | src/libmem.c:364-445 | distinct (frame, offset) pairs with offsets below the page size give distinct physical addresses |
| LibMem.PgnOffstSplit | src/libmem.c:366-367 | an address is its page number times the page size plus its offset, and the offset lies inside the page |
| LibMem.SamePageDistinctBytes | src/libmem.c:366-367 | two different addresses of one page reach two different bytes of the frame that holds the page |
| LibMem.FindVictimPage | src/libmem.c:581-597 | -1 on an empty `fifo_pgn`; otherwise the head page, which leaves the list |
| LibMem.PgGetPage | src/libmem.c:273-356 | a present page gives its frame and nothing changes; a missing page gets a free RAM frame, or else the frame of the victim popped from `fifo_pgn`; it is marked present and linked into `fifo_pgn`; -1 when neither source exists |
| LibMem.PgGetVal | src/libmem.c:364-400 | the byte the RAM holds at frame * page size + offset of the page `pg_getpage` gives, or -1 when that fails |
| LibMem.PgSetVal | src/libmem.c:408-445 | the value is stored at frame * page size + offset of the page `pg_getpage` gives, and no other RAM byte changes; -1 when that fails; a resident page keeps its frame and the page table does not change |
| LibMem.SetThenGetOther | src/libmem.c:364-445 | after `pg_setval` at one address of a resident page, `pg_getval` at another address of that page reads the byte the frame held before the write |
| LibMem.Read | src/libmem.c:455-464 | -1 for an id outside the table or a missing area; otherwise `pg_getval` at the slot start plus offset |
| LibMem.Write | src/libmem.c:509-520 | -1 for an id outside the table or a missing area; otherwise `pg_setval` at the slot start plus offset, returning 0 |
| LibMem.LibRead | src/libmem.c:467-499 | -1 for an id outside the table or a missing area; otherwise -1 when no frame can be found for the page, and else 0 exactly when the physical address lies in RAM, with the destination taking the byte RAM holds there; on failure the destination keeps its old value |
| LibMem.LibWrite | src/libmem.c:523-545 | 0 exactly when the id is inside the table and an area exists, and then the byte is stored at the physical address of the page `pg_getpage` gives (when that address lies in RAM) and no other RAM byte changes; on -1, RAM and the page table are untouched |
| LibMem.WriteThenRead | test/testvmem.c:995-1040 | reading back an offset just written gives the written byte whenever the read succeeds; an id outside the table fails both calls |
| LibMem.ReleaseOneAsWritten | src/libmem.c:559-569 | one page-table entry gives exactly one frame number to one of the two pools |
| LibMem.ReleaseOne | src/libmem.c:559-569 | the same with the presence test the right way round: a resident frame to RAM, a swap offset to SWAP |
| LibMem.ReleaseAllAdds | src/libmem.c:552-573 | releasing into non-empty pools adds what `Released` gives, one frame number per entry |
| LibMem.ReleaseAllAsWrittenAdds | src/libmem.c:552-573 | the same for the as-written release |
| LibMem.AsWrittenKeepsResidentFrames | src/libmem.c:559-569 | as written, a process whose pages are all resident returns no RAM frame |
| LibMem.AsWrittenLosesFrame7 | src/libmem.c:559-569 | for one resident page in frame 7, frame 7 stays allocated as written and goes back to RAM when corrected |
| LibMem.ReleasedRam | src/libmem.c:559-569 | the corrected release returns to RAM exactly the frames of the resident pages |
| LibMem.ReleasedSwap | src/libmem.c:559-569 | the corrected release returns to SWAP exactly the offsets of the swapped pages |
| LibMem.PutBackAsWritten | src/libmem.c:559-569 | one loop step as written changes the two pools as `ReleaseOneAsWritten` says |
| LibMem.PutBack | src/libmem.c:559-569 | one corrected loop step changes the two pools as `ReleaseOne` says |
| LibMem.FreePcbMemph | src/libmem.c:552-573 | returns 0; the pools become the old pools plus the as-written release of every page-table entry |
| LibMem.FreePcbMemphCorrected | src/libmem.c:552-573 | returns 0; the pools become the old pools plus the corrected release of every entry |
| LibMem.EnlistAll | src/libmem.c:301 | bringing in pages one after another grows `fifo_pgn` by one entry per page |
| LibMem.VictimOrderFifo | src/libmem.c:581-597 | linking at the tail keeps pages in the order they came in, so the first victim is the oldest page |
| LibMem.VictimOrderLifo | src/libmem.c:581-597 | linking at the head makes the first victim the newest page |
| QueueOps.Empty | src/queue.c:12-15 | 1 exactly when the queue is NULL or holds nothing, else 0 |
| QueueOps.MinPrioIndex | src/queue.c:42-59 | an index of smallest prio, with every earlier entry having a larger prio |
| QueueOps.MinPrioIndexUnique | src/queue.c:42-59 | those two properties single out one index |
| QueueOps.SamePrioPicksHead | test/testqueue.c:53-163 | among processes of one prio, dequeue picks the head, so the queue is first-in first-out |
| QueueOps.RemoveAt | src/queue.c:62-66 | removing one entry shortens the sequence by one |
| QueueOps.RemoveAtShape | src/queue.c:62-66 | entries before k stay, and later ones move down one place |
| QueueOps.RemoveAtMultiset | src/queue.c:62-66 | exactly one copy of the removed entry is lost and nothing else |
| QueueOps.Enqueue | src/queue.c:22-28 | a full queue is unchanged; otherwise proc is appended at index size |
| QueueOps.FindHighestPriority | src/queue.c:42-59 | the scan finds `MinPrioIndex` of the queued processes |
| QueueOps.ShiftLeft | src/queue.c:62-66 | the array prefix becomes the old contents without entry k |
| QueueOps.RemoveShift | src/queue.c:62-67 | the queue's contents lose entry k, the rest keep their order, and the queue stays well formed |
| QueueOps.Dequeue | src/queue.c:30-70 | NULL and no change for a NULL or empty queue; otherwise the first process of smallest prio, removed from the queue with the order of the rest kept |
| Sched.DequeueSamePrio | src/queue.c:30-70 | on a queue whose processes share one prio, dequeue returns the head and leaves the tail |
| Sched.Scheduler.FirstReadyFrom | src/sched.c:60-73 | the lowest non-empty level from k on, or None when all are empty |
| Sched.Scheduler.NewLevels | src/sched.c:24 | MAX_PRIO fresh, empty, pairwise distinct level queues |
| Sched.Scheduler.Init | src/sched.c:18-25 | the static queues start empty and well formed |
| Sched.Scheduler.InitScheduler | src/sched.c:38-50 | every level and the ready and run queues are emptied, slot[i] = MAX_PRIO - i, and the running list is untouched |
| Sched.Scheduler.QueueEmpty | src/sched.c:28-36 | -1 when some level holds a process; otherwise 1 when both ready and run queues are empty, else 0 |
| Sched.Scheduler.QueueEmptyNoMlq | src/sched.c:28-36 | 1 exactly when the ready and run queues are both empty, else 0 |
| Sched.Scheduler.DequeueLevel | src/sched.c:60-73 | a non-empty level gives its head process, and that level loses it |
| Sched.Scheduler.GetMlqProc | src/sched.c:60-73 | NULL with nothing changed when every level is empty; otherwise the head of the lowest non-empty level, which loses it, and every other level stays |
| Sched.Scheduler.PutMlqProc | src/sched.c:80-84 | the process is appended to the level of its prio unless that level is full, and no other level changes |
| Sched.Scheduler.AddMlqProc | src/sched.c:91-95 | the same as `put_mlq_proc` |
| Sched.Scheduler.GetProc | src/sched.c:102-104 | the outcome of `get_mlq_proc` |
| Sched.Scheduler.PutProc | src/sched.c:111-117 | the process points at the scheduler's ready queue and running list, then is put on its level |
| Sched.Scheduler.AddProc | src/sched.c:124-130 | the same through `add_mlq_proc` |
| Sched.Scheduler.AddTwo | test/testsched.c:68-128 | two additions to an empty level leave exactly those two processes, in order |
| Sched.Scheduler.SamePrioOrder | test/testsched.c:300-353 | two processes of one prio added to an idle scheduler come out in the order they were added |
| Sched.Scheduler.GetProcNoMlq | src/sched.c:132-141 | the outcome of dequeue on `ready_queue` |
| Sched.Scheduler.PutProcNoMlq | src/sched.c:143-152 | the process points at `ready_queue` and the running list, and is appended to `run_queue` |
| Sched.Scheduler.AddProcNoMlq | src/sched.c:154-163 | the process points at `ready_queue` and the running list, and is appended to `ready_queue` |
| KillAll.MatchLength | src/sys_killall.c:31-35 | the inner loop stops at i <= \|sub\| with the first i characters matching ignoring case, and reaches \|sub\| exactly when sub occurs at p |
| KillAll.PathContains | src/sys_killall.c:20-42 | 1 exactly when both strings are present, sub is not empty and sub occurs in path ignoring case; 0 otherwise |
| KillAll.ContainsIgnoresCase | src/sys_killall.c:30-33 | changing the letter case of either string never changes the outcome |
| KillAll.EmptyNameMatchesNothing | src/sys_killall.c:24-26 | an empty name matches no path, so nothing is killed |
| KillAll.SurvivorsMembers | src/sys_killall.c:75-112 | a process survives exactly when it was queued and does not match |
| KillAll.SurvivorsCount | src/sys_killall.c:75-112 | the queue shrinks by the number of matches, and survivors plus victims are the old contents |
| KillAll.KilledMatch | src/sys_killall.c:79-86 | every removed process matches the name |
| KillAll.SurvivorsIdempotent | src/sys_killall.c:75-112 | a second kill-all with the same name changes nothing |
| KillAll.VisitAt | src/sys_killall.c:78-89 | one visit removes the process at j when it matches and steps past it otherwise, so the queue holds the survivors of one more process |
| KillAll.PendingStart | src/sys_killall.c:76-77 | before the first visit the loop state holds: nothing looked at, nothing removed |
| KillAll.PendingDone | src/sys_killall.c:77 | when the index reaches the size, every process has been looked at and the queue holds exactly the survivors |
| KillAll.KillInQueue | src/sys_killall.c:75-91 | the queue ends up holding exactly the survivors of its old contents, in order |
| KillAll.KillLevel | src/sys_killall.c:96-110 | one pass of the level loop filters level p and leaves every other level as it was |
| KillAll.KillInLevels | src/sys_killall.c:94-112 | every one of the MAX_PRIO levels ends up holding exactly its survivors |
| KillAll.SysKillAll | src/sys_killall.c:75-115 | returns 0; the running list and every ready level hold exactly their survivors, and an absent list is skipped |
| MemVisual.CutPieceCoverage | mem_visual.py:19-29 | the pieces replacing p cover exactly p's bytes outside the allocated range |
| MemVisual.CutCoverage | mem_visual.py:18-29 | after the loop, a byte is free exactly when it was free and lies outside [addr, addr + size) |
| MemVisual.CutLoop | mem_visual.py:17-29 | the loop builds `Cut` of the free list |
| MemVisual.DedupMembers | mem_visual.py:38 | dropping repeats keeps every piece and adds none |
| MemVisual.DedupDistinct | mem_visual.py:38 | no piece is left twice |
| MemVisual.DedupOfDistinct | mem_visual.py:38 | a list without repeats is left as it is |
| MemVisual.DedupCoverage | mem_visual.py:38 | dropping repeated pieces changes no byte's coverage |
| MemVisual.AllocatedFreeCoverage | mem_visual.py:15-38 | after allocate, a byte is free exactly when it was free and is not allocated, or it lies in the rest of the allocation's last page |
| MemVisual.AllocatedFreeDistinct | mem_visual.py:38 | the free list allocate leaves holds no piece twice |
| MemVisual.AllocatedRangeNotFree | mem_visual.py:18-36 | with a non-negative size, no free piece keeps a byte of the allocated range |
| MemVisual.InsertByStartMembers | mem_visual.py:47 | every entry after inserting p is p or an entry of the old list |
| MemVisual.InsertByStartSorted | mem_visual.py:47 | inserting into a list sorted by start leaves it sorted by start |
| MemVisual.SortByStartSorted | mem_visual.py:47 | the sort leaves the free list sorted by start |
| MemVisual.InsertByStartPermutes | mem_visual.py:47 | insertion adds exactly one copy of p |
| MemVisual.SortByStartPermutes | mem_visual.py:47 | the sort is a permutation |
| MemVisual.MergeIntoShape | mem_visual.py:50-58 | one merge step keeps the list sorted and gapped when p starts no earlier than the last piece |
| MemVisual.CoalesceShape | mem_visual.py:48-59 | coalescing a sorted list gives a sorted list whose pieces neither overlap nor touch, empty exactly when the input is |
| MemVisual.MergeIntoCoverage | mem_visual.py:50-58 | one merge step covers exactly the bytes of m and of p |
| MemVisual.CoalesceCoverage | mem_visual.py:48-59 | coalescing a sorted list covers exactly the bytes it covered |
| MemVisual.CoalesceLoop | mem_visual.py:48-59 | the loop, which widens its last entry in place, builds `Coalesce` of the list |
| MemVisual.ReleasedFreeShape | mem_visual.py:40-59 | after deallocate, the free list is sorted, gapped and non-empty, and covers exactly the old free bytes plus the released piece |
| MemVisual.ProcessState.Init | mem_visual.py:9-13 | no allocation, and the given free list |
| MemVisual.ProcessState.Allocate | mem_visual.py:15-38 | the region maps to (addr, size), and the free list becomes `AllocatedFree` of the old one |
| MemVisual.ProcessState.Deallocate | mem_visual.py:40-59 | an unknown region changes nothing; otherwise the region leaves the map and its piece is merged back as `ReleasedFree` says |

## Left out

- Locks (`mmvm_lock`, `queue_lock`) and all `printf` output: the model is sequential and has no output.
- The page-table effect of `vm_map_ram` and `alloc_pages_range`: only the mapping's success or failure enters `inc_vma_limit` and `__alloc`, as the parameter `mapOk`.
- `malloc` failure: allocation in the model always succeeds.
- Integer widths: sizes are unbounded `nat`s. A negative `int` size, or a `uint32_t` that wraps on its way into `__alloc`, is not modelled.
- The PTE bit-field macros (`PAGING_FPN`, `PAGING_SWP`, `PAGING_PAGE_PRESENT`): an entry is `Present(fpn)` or `Swapped(type, offset)`. As written, `free_pcb_memph` reads the fields of the wrong kind of entry; the parameters `rawFpn` and `rawSwp` stand for what those macros yield.
- The bodies of `enlist_pgn_node` and `enlist_vm_rg_node`, which are not part of this model: where they link a node is the configuration value `Insert`.
- `mm-memphy.c` is not part of this model. Each physical store is a byte map and a multiset of free frames, and `MEMPHY_get_freefp` may take any free frame.
- Pointer aliasing between list nodes: lists are sequences.
- The header constants (`PAGING_PAGESZ` 256, `PAGING_MAX_SYMTBL_SZ` 30, `MAX_QUEUE_SIZE` 10, `MAX_PRIO` 140) are taken as given, since the headers are not part of this model.
- MmVm.GetVmaByNum: requires some area id to be at least `vmaid` (or the list to be empty); otherwise the C loop walks off the end of the list and dereferences NULL. The same holds for `MmVm.GetVmAreaNodeAtBrk`.
- LibMem.Alloc: requires a slot id inside the table, since `__alloc` indexes the table unchecked and its callers check the id first.
- LibMem.EnlistVmFreergList: requires an area to exist, since the C code dereferences the first area unchecked.
- QueueOps.Enqueue: requires a non-NULL process, which every caller in the source passes.
- LibMem.PgGetPage: assumes `mm` is the caller's own `mm_struct`, as at every call site.
- LibMem.FreePcbMemph: requires RAM and SWAP to be distinct devices, so each frame number lands in one pool. The same holds for `LibMem.FreePcbMemphCorrected`.
- LibMem.GetSymrgById: uses the intended test `rgid >= PAGING_MAX_SYMTBL_SZ`, so it and the members built on it (`LibMem.Free`, `LibMem.Read`, `LibMem.Write`, `LibMem.LibFree`, `LibMem.LibRead`, `LibMem.LibWrite`) reject rgid 30, where the source reads or writes one slot past the table. The table has 30 slots, and what lies past them is not modelled. The written test is `LibMem.AsWrittenAdmitsOnePastEnd` (see Findings).
- LibMem.Read: requires `AccessInRange`: the slot start plus the offset is not negative and its page number lies inside `pgd`. The source indexes `mm->pgd[pgn]` unchecked (`src/libmem.c:275`), so other addresses read outside the page table. The same holds for `LibMem.Write`, `LibMem.LibRead`, `LibMem.LibWrite` and `LibMem.WriteThenRead`, and for `LibMem.PgGetVal`, `LibMem.PgSetVal` and `LibMem.SetThenGetOther`, which require the page number to lie inside `pgd`.
- Common.Memphy.Read: assumes `MEMPHY_read` returns -1 for an address outside the store and reads nothing, and likewise `Common.Memphy.Write` for `MEMPHY_write`. `mm-memphy.c` is not part of this model, so this behaviour is assumed. The clauses "0 exactly when the physical address lies in RAM" of `LibMem.PgGetVal`, `LibMem.PgSetVal`, `LibMem.Read`, `LibMem.Write`, `LibMem.LibRead` and `LibMem.LibWrite` rest on it.
- MmVm.MmSwapPage: requires the first byte of both frames to lie inside its store, since the outcome of an out-of-range `MEMPHY_read`/`MEMPHY_write` is not part of this model.
- Sched.Scheduler.PutMlqProc: requires `proc->prio < MAX_PRIO`, since the source indexes `mlq_ready_queue[proc->prio]` unchecked. The same holds for `Sched.Scheduler.AddMlqProc`, `Sched.Scheduler.PutProc`, `Sched.Scheduler.AddProc`, `Sched.Scheduler.AddTwo` and `Sched.Scheduler.SamePrioOrder`.
- LibMem.LibFree: requires a non-NULL process unless the id lies outside the table. `libfree` passes its process straight to `__free`, which dereferences `caller->mm` at `src/libmem.c:183` once the id passes the test. So `libfree(NULL, 1)`, which `test/testvmem.c:1021` makes expecting a non-zero return, dereferences NULL. This is a defect of the source that the model does not reproduce.
- KillAll.SysKillAll: does not model the loop at `src/sys_killall.c:54-61`, which reads the name through `libread`. The name is a parameter.
- KillAll.SysKillAll: requires the running list and the levels to be distinct, well-formed queues.
- The single (non-MLQ) build of `sys_killall.c` skips the level loop; the model treats it as a process whose `mlqReadyQueue` is None.
- `parse_log`, `plot_state`, the argument parsing and the drawing code of `mem_visual.py` are not modelled: they handle I/O and plotting.
- Python tuples are the datatype `Piece`, and the merged two-element lists are `Piece`s too.

## Findings

| source | as written | input that shows it | evidently intended | confidence | as-written member | corrected member |
|---|---|---|---|---|---|---|
| src/libmem.c:55-61 | the slot-id test rejects only rgid < 0 and rgid > `PAGING_MAX_SYMTBL_SZ`, and `__free` (line 178) tests the same way | rgid = 30 with a 30-slot table gets past the test and indexes one past the end | reject rgid >= `PAGING_MAX_SYMTBL_SZ` | not executed | LibMem.AsWrittenAdmitsOnePastEnd | LibMem.SymIdTestsDifferOnlyAtMax |
| src/libmem.c:559-569 | `free_pcb_memph` releases the frame of a page whose entry is NOT present and the swap offset of one that is | a process with one resident page in frame 7: frame 7 never returns to the RAM pool | resident frames go back to RAM, swap offsets to SWAP | not executed | LibMem.AsWrittenLosesFrame7 | LibMem.FreePcbMemphCorrected |
