# A verified model of the GUK microkernel's core

GUK is a Xen guest microkernel written in C. This Dafny project models the parts of it whose
correctness is decided by the code itself and proves what those parts promise:

- `LongDivision.dfy` (with `Arithmetic.dfy` and `Digits.dfy`): the quad division of `lib/math.c`, Knuth's
  Algorithm D in section 4.3.1 of TAOCP volume 2, for half words of any width.
- `Bitmap.dfy`, `PagePool.dfy`, `PageAllocator.dfy`: the physical page allocator of `mm.c` with its bitmap,
  its two regions and its ballooning holes.
- `Heap.dfy`: the free-list heap of `lib/xmalloc.c`.
- `PageTables.dfy`: building and walking 4-level page tables in `arch/x86/mm.c`.
- `Scheduler.dfy`, `RoundRobin.dfy`, `ThreadLife.dfy`, `SleepQueue.dfy` (with `Queues.dfy`): `sched.c`.
- `Completion.dfy`: `completion.c` with the wait queues of `include/guk/wait.h`.
- `FsRing.dfy`: the lock-free request ring of `fs-front.c`.
- `XenbusRing.dfy`, `XenbusIds.dfy`, `Console.dfy` (with `ByteRings.dfy`): the byte rings of `xenbus/xenbus.c` and
  `console/`, and the request identifiers of the former.
- `NumberText.dfy`, `Printf.dfy`, `Conversions.dfy`: `lib/printf.c`.
- `GrantTable.dfy`: the free list of grant references in `gnttab.c`.
- `Common.dfy`: what several of these share.

Code that updates memory in place is written as classes and methods over arrays and sequences, and
each method is proved against a function or a predicate over its state. Code whose point is
concurrency is a state machine: `Apply` performs one lock-held section or one atomic instruction, a
sequence of steps is an interleaving, and the theorems quantify over all of them. A step that its
thread cannot take leaves the state as it is.

What comes from outside is a parameter: how many pages Xen grants and how many page-table frames
mapping them takes (`Grant`), the pages the page allocator returns to the heap, the frames that the
page-table callbacks return, how fast the console daemon drains its ring, what another domain stores
into a grant entry, what others do to the page pool while its lock is dropped (`PageOp`, `Callback`), the clock,
and the arguments of a format.

Where the code and its comments differ, the model follows the code:

- `can_increase` is documented to return n but returns what is left of n at the last hole; only
  whether that is zero matters, and `CanIncrease` says when.
- The walker `guk_not11_virt_to_pfn` reports entries, present or not. Building a range therefore changes
  its answer for pages outside the range: for the pages at which the 1-1 mapping shows the new tables,
  whose entries become read-only, and for pages whose 2MB region gets its first table, where "not
  present" becomes an empty entry. `WalkerOnEveryPage` says that these are all, and `WalkerNotices` is
  such a build.
- `complete_all` stores UINT_MAX/2, which a later `complete` or `INIT_COMPLETION` overwrites. It releases
  all waiters only until then and only that many; `ReleasedExactlyWhileLeft` says for exactly how long.
- `guk_join_thread` tests whether the caller, not the joined thread, is dying; the `Join` step does so too.
- `__divdi3` does not truncate toward zero in one case, where the quotient does not fit.
- A request whose size computation overflows gets a block with no room (`RequestFits`, `RequestOverflows`).
  If that has no room for a header either, the heap breaks exactly when the block is cut off a larger one
  (`SmallerThanHeader`, `Malloc`).
- The page count of a large request is passed as an int. From 2^31 pages on, a run that is handed out is
  shorter than its header says and has no room for the request (`RunHasRoom`, `CutCountExample`). `Free`
  cuts the count in the same way and gives back exactly the pages that were taken.
- A recursive entry to `increase_memory_holding_lock` is refused but clears the flag that refuses it, so a
  third entry is admitted while the first waits for Xen; `ThirdEntry` says when the first then ends soundly.
- A number printed after blanks, a plus sign or a hexadecimal prefix is read back as zero by
  `simple_strtol`, which skips none of these.
- The block header of the heap is followed by `__cacheline_aligned`, which nothing defines, so it names
  a variable and does not align: the header has 24 bytes.

## Model

| member | source | states |
|---|---|---|
| LongDivision.Shl | lib/math.c:149-157 | the digits become the number times 2^sh, except for the top sh bits that fall out |
| LongDivision.TrialDigit | lib/math.c:292-309 | the estimate after the D3 test is the largest digit that fits the three leading dividend digits; with a normalised divisor at most two corrections are made |
| LongDivision.EstimateWithinOne | lib/math.c:284-291 | for all leading parts and rests, that estimate is the true quotient digit or one more |
| LongDivision.DigitWithinOne | lib/math.c:281-309 | the same on the digit arrays: normalised divisor, running remainder below divisor times base |
| LongDivision.BorrowStep | lib/math.c:316-322 | one wrapped difference splits into a digit and a borrow whose values are exact in base B |
| LongDivision.MultiplySubtract | lib/math.c:316-322 | the window becomes itself minus qhat times the divisor modulo a power of the base, and the borrow word is nonzero exactly when that went below zero |
| LongDivision.AddBack | lib/math.c:331-336 | the window becomes itself plus the divisor with the carry out dropped |
| LongDivision.BorrowMeansTooBig | lib/math.c:323-336 | the sign of the difference tells whether the estimate was one too big, and one add-back repairs it |
| LongDivision.DivideStep | lib/math.c:281-338 | one round leaves exactly the remainder and returns exactly the quotient digit; the estimate was that digit or one more, and D4 borrowed exactly in the second case |
| LongDivision.PartialNext | lib/math.c:281-339 | the loop invariant: quotient so far times divisor plus what is left is the dividend, and what is left stays below the shifted divisor |
| LongDivision.DigitLoop | lib/math.c:276-339 | quotient and remainder of the normalised numbers, digit by digit |
| LongDivision.ChooseShift | lib/math.c:268-270 | the multiplier makes the leading divisor digit at least half the base and keeps it a digit |
| LongDivision.Normalise | lib/math.c:268-274 | both numbers are multiplied by the same power of two and nothing falls out |
| LongDivision.ShiftBack | lib/math.c:346-356 | shifting the remainder digits back divides by the multiplier exactly |
| LongDivision.ShortDivide | lib/math.c:223-248 | quotient and remainder for a divisor of one digit |
| LongDivision.LongDivide | lib/math.c:262-360 | normalisation, division and denormalisation together give quotient and remainder of the original numbers |
| LongDivision.DivideDigits | lib/math.c:194-360 | with any number of leading zeros in either number, the quotient and remainder are exact |
| LongDivision.QDivRem | lib/math.c:167-361 | for every dividend and nonzero divisor the result is u / v and, if asked for, u % v; a zero divisor is reported |
| LongDivision.UDivDi3 | lib/math.c:389-393 | unsigned quotient of two quads |
| LongDivision.UModDi3 | lib/math.c:399-406 | unsigned remainder of two quads |
| LongDivision.DivDi3 | lib/math.c:368-384 | the quotient truncated toward zero for every nonzero divisor, unless the smallest quad is divided by -1, which gives itself |
| LongDivision.BitOrDisjoint | lib/math.c:131-143 | combining halves with or is addition, because they share no bit |
| Bitmap.SetWithin | mm.c:319-327 | the mask inside one word sets, or clears, the bits from lo to hi - 1 and no others |
| Bitmap.MapAlloc | mm.c:307-340 | the bits of the pages first to first + nr - 1 become set and no other bit changes, for every offset and length |
| Bitmap.MapFree | mm.c:347-382 | the same bits become clear and no other bit changes |
| PagePool.FirstRunIsFirst | mm.c:604-641 | no run of n free pages at or after the hint is below the one the reference search names |
| PagePool.Conservation | mm.c:141-156 | in every valid state free, allocated and missing pages add up to the pool |
| PagePool.TakeKeeps | mm.c:619-637 | taking a free run keeps every page free, in one run, or in one hole |
| PagePool.GiveKeeps | mm.c:684-706 | and so does giving a run back |
| PagePool.FillKeeps | mm.c:459-474 | and so does filling the front of the first hole, which shrinks the holes by that many pages |
| PagePool.InsertOk | mm.c:524-532 | inserting a hole keeps the holes sorted and disjoint and adds its pages to their total |
| PagePool.DigKeeps | mm.c:557-575 | turning free pages into a hole, coalesced with the first one or inserted, keeps every page in one place |
| PageAllocator.HintLosesNothing | mm.c:604-606 | searching the small region from its hint finds what searching all of it finds |
| PageAllocator.Pool.constructor | mm.c:873-913 | the initial pool is valid, with the given pages free and the rest up to the maximum a hole |
| PageAllocator.Pool.NextFree | mm.c:385-393 | the first free page at or after the given one, or the end |
| PageAllocator.Pool.Search | mm.c:604-641 | the lowest run of n free pages between the hint and the end of the region, if any |
| PageAllocator.Pool.TryRegion | mm.c:604-641 | the lowest run of n free pages from the hint on, if any, becomes live |
| PageAllocator.Pool.TakeRun | mm.c:620-637 | a free run becomes live; the counter stays the number of clear bits, the small hint stays below all free small pages, and the bulk hint passes no free page |
| PageAllocator.Pool.AllocatePages | mm.c:591-667 | a small request takes the lowest run of the small region if there is one; otherwise the run is the lowest of the bulk region from its hint on, in the pool as it was or as the last increase left it; it ends, no live run moves, and failure means that the last search found nothing and that then the holes were too small, Xen refused, no page-table frame was left, or the entry was recursive |
| PageAllocator.Pool.DeallocatePages | mm.c:684-706 | a run given back with its size becomes free, and counter and hints stay valid |
| PageAllocator.Pool.CanIncrease | mm.c:840-850 | nonzero exactly when the holes hold the n > 0 pages asked for |
| PageAllocator.Pool.PageFrames | mm.c:456-458 | page-table frames taken while the lock is dropped leave holes and live runs alone |
| PageAllocator.Pool.RunOps | mm.c:456-458 | any allocations and deallocations by others in the gap in which Xen is asked keep the pool valid and the holes as they are |
| PageAllocator.Pool.Increase | mm.c:436-487 | whatever others allocate and deallocate meanwhile, the pool stays valid, the pages that leave the holes are exactly what the answers of Xen bring (`Obtained`) unless no page-table frame was left, fewer than n only after a refusal, and only runs given back by their holders go; a recursive entry, or too few missing pages, changes nothing but the flag |
| PageAllocator.WillingAnswers | mm.c:451-480 | if Xen never gives less than it is asked for, one answer for each hole brings all n pages |
| PageAllocator.ThirdEntry | mm.c:438-480 | if a third entry fills k pages of the hole that the first one is waiting for, the first ends with only granted pages free and all counted exactly if k is 0 |
| PageAllocator.Pool.IncreaseOnce | mm.c:452-480 | one round takes from the first hole the least of what is granted, what is needed and what the hole has, or nothing if no page-table frame was left |
| PageAllocator.Pool.HoleAdd | mm.c:524-532 | the hole list with the new hole before the first one that starts later |
| PageAllocator.Pool.DigHole | mm.c:557-575 | a free run becomes a hole, and the end of the pool moves down if the run was last |
| PageAllocator.Pool.RunCallbacks | mm.c:550-575 | any allocations, deallocations and increases in a lock gap that take no page of the run being released keep the pool valid and that run free |
| PageAllocator.Pool.ReleaseRun | mm.c:550-578 | the run becomes a hole despite the gaps before and after it, and hole pages add up |
| PageAllocator.Pool.Decrease | mm.c:536-585 | whatever others do in the gaps, the pool stays valid, at most n pages are released, hole pages add up and only runs given back by their holders go; if they stay in the small region, exactly the n highest free bulk pages, or all if there are fewer, become holes |
| PageAllocator.Pool.CurrentReservation | mm.c:856-866 | the pages below the pool plus the free and the allocated ones |
| Heap.RequestFits | lib/xmalloc.c:153-155 | the block is large enough for the request exactly when the size computation does not overflow |
| Heap.RequestOverflows | lib/xmalloc.c:153-155 | every request that overflows gets at most a header, and less than one exactly below WORD - 7 |
| Heap.OverflowExample | lib/xmalloc.c:153-155 | a request for WORD - 24 bytes gets a block of size 0 |
| Heap.RunHasRoom | lib/xmalloc.c:129-142 | a run that the page allocator hands out has room for the request exactly when its page count is below 2^31 |
| Heap.CutCountExample | lib/xmalloc.c:129-142 | a request for 2^44 + 4072 bytes gets one page, under a header that says 2^44 + 4096 |
| Heap.SmallerThanHeader | lib/xmalloc.c:85-120 | a request that gets less than a header is served by the head of the free list; the heap stays sound if that block is handed out whole, and breaks if it, or a fresh page, is cut |
| Heap.EveryPageIsTiled | lib/xmalloc.c:85-105 | from the start of every heap page its blocks follow each other without gap to its end |
| Heap.PayloadsApart | lib/xmalloc.c:144-192 | what callers hold, headers included, overlaps neither other live blocks nor free ones |
| Heap.OpenPage | lib/xmalloc.c:107-120 | a split fresh page joins the heap |
| Heap.TakeFront | lib/xmalloc.c:169-174 | splitting a free block keeps the pages tiled and the free blocks apart |
| Heap.MergeTurn | lib/xmalloc.c:236-259 | looking at one more free block finds each neighbour in any list order, and never two on one side |
| Heap.MergeKeeps | lib/xmalloc.c:236-274 | merging a block with its free neighbours keeps pages tiled, with no two adjacent blocks both free |
| Heap.WholePageIffLastLive | lib/xmalloc.c:261-274 | the merged block fills its page, from its start, exactly when it was the page's last live block |
| Heap.HeaderChecks | lib/xmalloc.c:209-232 | the tests on the header pass for every live block, and its size tells blocks from whole-page runs |
| Heap.Allocator.MaybeSplit | lib/xmalloc.c:85-105 | the rest becomes a free block at the head of the list if it has room for two headers |
| Heap.Allocator.Search | lib/xmalloc.c:168-172 | the first block of the free list that is large enough |
| Heap.Allocator.WholePages | lib/xmalloc.c:129-142 | a run of as many pages as the count is when passed as an int becomes live, under a header with the whole size; it has room for the request exactly when the count is not cut |
| Heap.Allocator.NewPage | lib/xmalloc.c:107-120 | a fresh page serves the request, split or whole; the heap stays valid exactly when the block has room for a header |
| Heap.Allocator.Malloc | lib/xmalloc.c:144-192 | for every request: first fit, else fresh pages, else null; no live header changes; the heap stays valid exactly when no block smaller than a header is cut off a free block or a fresh page; a block that is returned has room for the request exactly when neither its size overflowed nor its page count was cut; a block in a heap page is less than two headers larger than needed, and the bytes on the free list change by exactly its extent, less a page that was opened |
| Heap.Allocator.MergeAndFree | lib/xmalloc.c:235-276 | after one pass the block merged with its free neighbours heads the list; its page goes back instead exactly when no other live block is in it; the bytes on the free list grow by exactly the block, less a page that goes back |
| Heap.Allocator.Free | lib/xmalloc.c:194-282 | no trap is reached for a live pointer, exactly that block dies, whole-page runs go back with exactly the pages that were taken for them, and other live headers stay |
| PageTables.PteRoundTrip | include/x86/arch_mm.h:235-235 | an entry gives back the frame it was made from |
| PageTables.OffsetIsIndex | include/x86/arch_mm.h:136-147 | the offset macros pick the indices of the address's page at every level |
| PageTables.LeafWrite | arch/x86/mm.c:268-286 | writing a last-level entry changes the entry of exactly one page |
| PageTables.InstallKeepsLeaves | arch/x86/mm.c:95-183 | hanging an empty table into the tree keeps every last-level entry, and the entries it opens are empty |
| PageTables.FlushStep | arch/x86/mm.c:278-286 | one queued update maps exactly the page it was queued for |
| PageTables.AddressSpace.NewPtFrame | arch/x86/mm.c:95-183 | a new table is cleared, the entry of its own page made read-only and the table linked; every other last-level entry stays or is a new empty one |
| PageTables.AddressSpace.MissingTable | arch/x86/mm.c:215-223 | the table callback is asked for a missing table only; its frame goes there, or its failure is reported with the memory as before |
| PageTables.AddressSpace.ReachL1 | arch/x86/mm.c:210-261 | the three upper levels of an address exist afterwards unless the table callback failed, each missing one made from the next frame it gave |
| PageTables.AddressSpace.BuildPagetable | arch/x86/mm.c:197-291 | despite the batches, the last-level entry of every page is exactly known afterwards: as the callback said in the range, read-only for the pages of the new tables, empty where a 2MB region was opened, and as before elsewhere; the table callback is called once for each table that the range needs and does not have, or up to its first failure; upper entries stay or are new and writable; the build succeeds exactly if no callback that was made failed, and on failure the same holds for a prefix of the range |
| PageTables.NeededNext | arch/x86/mm.c:210-261 | the tables missing on the path of the next page are those that it is the first of the range to need |
| PageTables.AddressSpace.VirtToPfn | arch/x86/mm.c:478-502 | the walk reports a missing upper level, and otherwise the last-level entry, present or not, and its pseudo-physical page |
| PageTables.AddressSpace.Validate | arch/x86/mm.c:504-508 | true exactly for pages mapped to a frame with a positive pseudo-physical number |
| PageTables.WalkFindsBuiltPage | arch/x86/mm.c:478-502 | after a build, the walk of every page with a frame gives that frame's entry |
| PageTables.OtherPagesUnchanged | arch/x86/mm.c:197-291 | every other page, and every page the callback answered 0 for, translates and validates as before, although its entry may have changed |
| PageTables.WalkerOnEveryPage | arch/x86/mm.c:478-502 | for every page the build does not map, the walker's whole answer changes exactly if the page shows one of the first frames of the table callback, as many as tables were needed, or lies in a newly opened 2MB region; both new answers are given |
| PageTables.WalkerNotices | arch/x86/mm.c:197-502 | in a concrete address space, building page 512 succeeds and changes the walker's answers for pages 10 and 513 |
| PageTables.LinearAllocMapsLinearly | arch/x86/mm.c:80-82 | with the linear callback over pseudo-physical pages that have frames, page i of the range is mapped to the frame of page base + i |
| PageTables.BuildLinear | arch/x86/mm.c:293-296 | after a successful build with that callback the walk of every page of the range gives its pseudo-physical page |
| Scheduler.ScanReady | sched.c:546-563 | the first thread of the ready queue that is runnable and not running elsewhere |
| Scheduler.EveryInterleavingIsSafe | sched.c:521-689 | in every interleaving on any number of CPUs no thread is current on two CPUs, a thread is on the ready queue once iff it is runnable, and its link is on at most one queue |
| Scheduler.NotPickedWhileSwitchingOut | sched.c:506-510 | until switch_thread_in clears RUNNING no other CPU can make the thread current |
| Scheduler.ChosenThreadIsSound | sched.c:609-689 | the thread that schedule chooses is runnable, not dying and not running elsewhere |
| Scheduler.ReapReleasesJoiners | sched.c:449-500 | reaping a thread makes everyone still joined on it runnable |
| Scheduler.WakeJoinersKeepsLinks | sched.c:449-461 | waking all joiners empties the joiners queue onto the end of the ready queue, in order, and every link stays on one queue |
| Scheduler.WakesEveryJoiner | sched.c:449-461 | each of them is runnable and no longer joining afterwards |
| Scheduler.DispatchKeeps | sched.c:648-689 | making the chosen thread current keeps every thread on at most one CPU |
| Scheduler.StepKeeps | sched.c:895-1023 | every step, blocks, wakes, joins, exits, reaps and interrupts included, keeps the invariant of queues, CPUs and exits |
| ThreadLife.WakeTakesEffect | sched.c:967-1017 | a waiting thread that is woken is runnable and last on the ready queue, and no other thread changes |
| ThreadLife.BlockTakesEffect | sched.c:936-961 | a blocked thread is not runnable and off the ready queue, whose order stays |
| ThreadLife.JoinTakesEffect | sched.c:416-441 | the caller is joining, not runnable and last on the joiners queue |
| ThreadLife.InterruptTakesEffect | sched.c:1132-1147 | an interrupted thread is off every joiners queue, runnable and last on the ready queue |
| ThreadLife.IdleOnlyWithoutWork | sched.c:521-577 | a CPU idles after schedule exactly if every runnable thread is running on another CPU |
| ThreadLife.WokenThreadRuns | sched.c:529-1017 | on one CPU a woken thread becomes current within as many calls as threads were ready, plus one, over every continuation that does not block it |
| ThreadLife.InterruptedThreadRuns | sched.c:529-1147 | so does an interrupted one, even out of a join |
| ThreadLife.CreatedThreadRuns | sched.c:529-836 | so does a new one |
| ThreadLife.BlockedUntilWoken | sched.c:931-961 | over every interleaving a blocked thread that was switched out runs on no CPU until it is woken or interrupted |
| ThreadLife.JoinLastsUntilExit | sched.c:416-461 | over every interleaving that does not interrupt it, a joining thread stays queued and not runnable until the other has exited |
| ThreadLife.ExitReleasesJoiners | sched.c:449-925 | when a thread exits, all who joined it follow at the end of the ready queue in order |
| ThreadLife.ReleasedJoinerRuns | sched.c:449-925 | and the k-th of them runs within as many calls as threads are ready before it, plus one |
| ThreadLife.ExitedThreadGoes | sched.c:478-925 | exit, switch and one pass of the reaper leave the thread on no queue and no CPU, and all who joined it runnable |
| RoundRobin.ScheduleBringsCloser | sched.c:529-577 | each effective call of schedule dispatches the thread or brings it one turn closer |
| RoundRobin.OtherStepKeepsPlace | sched.c:949-997 | no other step sets it back |
| RoundRobin.RoundRobinBound | sched.c:529-577 | a runnable thread at position k of the ready queue becomes current within k + 1 calls, whatever other threads do in between |
| SleepQueue.Queue.Add | sched.c:1028-1048 | the object goes behind all that wake no later, and the queue stays sorted |
| SleepQueue.Queue.WakeExpired | sched.c:383-414 | although it stops early, it wakes exactly the threads that are due, once, in order |
| Completion.NoLostWakeUp | completion.c:48-99 | in every interleaving, while the completion is posted no queued waiter is blocked |
| Completion.BlockedUntilWoken | completion.c:48-99 | over every continuation in which it does not run, a blocked waiter stays blocked exactly as long as nothing is posted and nobody else wakes it |
| Completion.EveryWaitIsAccountedFor | completion.c:48-67 | in every interleaving the waits that returned and those that are queued are together all waits that were begun |
| Completion.WaitReturnsExactlyWhileLeft | completion.c:48-67 | a new wait returns at once and uses up one of what is left of the last posting exactly if anything is left; otherwise it queues and blocks |
| Completion.ReturnsArePaidFor | completion.c:85-99 | without complete_all, no more waits return than there were posts |
| Completion.EveryInterleaving | include/guk/wait.h:71-95 | both for a fresh completion, and no thread is queued twice |
| Completion.CompleteAllReleasesAll | completion.c:72-83 | over every continuation without another posting in which at most UINT_MAX/2 waits return, each waiter that was queued and runs has left the queue |
| Completion.ReleasedExactlyWhileLeft | completion.c:48-99 | whatever came before the last posting and comes after it, a queued waiter that runs returns exactly if fewer waits have returned since than that posting allows |
| Completion.CompleteStrandsAllButOne | completion.c:85-99 | after a complete, whatever was posted before, of any two queued waiters one stays queued until the next posting |
| Completion.ResetStrandsAll | include/guk/completion.h:67-67 | after INIT_COMPLETION all queued waiters stay queued until the next posting |
| Completion.StrandedWaiter | completion.c:72-99 | two waiters, complete_all, then complete before they run: the second stays blocked |
| Completion.CompleteAllThenRechecks | completion.c:72-80 | if the queued waiters run right after complete_all they all return, exactly if there are at most UINT_MAX/2 of them |
| FsRing.StepKeeps | fs-front.c:95-137 | every atomic step keeps the invariant of reservations, slots and threads |
| FsRing.EveryInterleavingIsSafe | fs-front.c:95-137 | each index is held by one thread, reservations never run more than a ring ahead even with a stale index, and every published index was filled by its owner |
| FsRing.ReservedOnce | fs-front.c:100-121 | over every continuation an index keeps its owner and a published request is not rewritten; publication is in index order |
| FsRing.OwnerCanCommit | fs-front.c:123-137 | the owner of the next index to publish can always publish it |
| FsRing.EverythingCanBePublished | fs-front.c:123-137 | from every reachable state, letting owners finish in order publishes all reserved indices |
| FsRing.AttemptSucceedsUnlessOvertaken | fs-front.c:100-121 | whatever others do between its accesses, an attempt to reserve gets the index it loaded exactly if a slot was free and nobody got that index first |
| FsRing.AnyRequestCanBePublished | fs-front.c:95-137 | from every reachable state any thread that has no request can get any request published, in its slot as it was written |
| ByteRings.ChunkAppends | xenbus/xenbus.c:369-372 | writing a chunk up to the end of the ring appends it to the queue and keeps what is unread, if there is room |
| XenbusRing.MemCpyFromRing | xenbus/xenbus.c:123-135 | the bytes from a slot on, across the end of the ring |
| XenbusRing.SameSlots | xenbus/xenbus.c:123-135 | reading from a free-running index or from its slot is the same |
| XenbusRing.Ring.CopyIn | xenbus/xenbus.c:365-389 | the loop ends, also on empty segments, appends all segments, and none of the traps after it is reached |
| XenbusRing.Ring.Write | xenbus/xenbus.c:336-394 | given room, exactly the header and the segments are appended and every unread byte stays |
| XenbusRing.Ring.WriteAndReadBack | xenbus/xenbus.c:336-394 | copying from the old producer index gives the message back across the wrap |
| XenbusIds.FreeSlotIsMet | xenbus/xenbus.c:264-271 | if fewer than all slots are in use, going round from any slot meets a free one |
| XenbusIds.Requests.Allocate | xenbus/xenbus.c:250-279 | an identifier that was free is marked, the counter stays the number of slots in use, and the trap is not reached |
| XenbusIds.Requests.Release | xenbus/xenbus.c:237-246 | the identifier is free again; waiters are woken exactly when it was the first free one or the last live one |
| Console.Ring.Send | console/xencons_ring.c:63-80 | as much of the text as fits is appended to the queue |
| Console.Ring.Receive | console/xencons_ring.c:99-121 | the oldest unread bytes, as many as fit, leave the queue in order |
| Console.Printer.CheckedPrint | console/console.c:96-104 | everything is sent whatever amounts the ring takes, and the wait ends if the daemon is not idle forever |
| Console.Printer.PrintLine | console/console.c:133-145 | the line goes out with CR LF and the two edited characters are put back |
| Console.Printer.Print | console/console.c:107-159 | exactly the text with each newline as CR LF goes out and the buffer is as before |
| NumberText.DigitsFit | lib/printf.c:195-195 | a 64-bit value has at most 64 digits in any base, so the scratch buffer does not overflow |
| NumberText.NumberLength | lib/printf.c:193-289 | the field width is a minimum: the text is as long as the wider of it and sign, prefix and digits |
| NumberText.DigitsReadBack | lib/printf.c:227-236 | the value of the printed digits is the number |
| NumberText.ParseUnsigned | lib/printf.c:94-117 | the value of the longest run of digits modulo the word size, and where it ends |
| NumberText.ParseSigned | lib/printf.c:125-130 | the signed reading of an optional minus and digits |
| NumberText.NumberReadsBack | lib/printf.c:125-289 | for bases 2 to 16, reading a printed signed value gives it back exactly if it is zero or nothing but a minus or zeros stand before its digits |
| Printf.Output.PutNumber | lib/printf.c:193-289 | number() appends padding, sign, prefix, zeros and digits as laid out |
| Printf.FillDigits | lib/printf.c:227-236 | the scratch buffer holds the digits in reverse and is never left |
| Printf.SkipAtoi | lib/printf.c:176-183 | the value of the longest run of decimal digits, and where it ends |
| Printf.SpecReadsBack | lib/printf.c:334-388 | any flags, width, precision and qualifier written out anywhere in a format are read back as they were |
| Printf.StarsReadBack | lib/printf.c:346-373 | stars take width and precision from the next two arguments, with the meaning of negative ones |
| Conversions.NumberConversion | lib/printf.c:393-520 | %d, %i, %u, %o, %x and %X with any flags, width, precision and qualifier anywhere in a format: blanks, sign and prefix as asked for, then digits of that conversion only, which read in base 10, 8 or 16 as the argument cut to 16, 32 or 64 bits |
| Conversions.PointerConversion | lib/printf.c:434-443 | %p is the word in hexadecimal, in 16 places with zeros if no width is given |
| Conversions.StringConversion | lib/printf.c:411-432 | %s is the string up to its end or the precision, in a field with the blanks before it, or after it with a minus |
| Conversions.CharConversion | lib/printf.c:394-409 | %c is the low byte of its argument in such a field |
| Conversions.LiteralText | lib/printf.c:328-332 | text without percent signs is copied |
| Conversions.PercentSign | lib/printf.c:465-468 | two percent signs print one and take no argument |
| Conversions.UnsignedReadsBack | lib/printf.c:301-531 | %x, %X, %o and %u with any qualifier are read back as the word cut to that size |
| Conversions.SignedReadsBack | lib/printf.c:301-531 | %d and %i with any qualifier are read back as the signed number |
| Printf.Output.PutConversion | lib/printf.c:393-520 | one conversion appends the text of which the lemmas above say what it shows, and %n stores the number of characters so far |
| Printf.Output.Run | lib/printf.c:301-531 | the buffer gets the first size - 1 characters of the unbounded text and a null character, nothing if the size is 0; the unbounded length is returned as an int, which it is exactly below 2^31, and every %n stores how much of the unbounded text comes before it |
| Printf.LongReadsBack | lib/printf.c:301-531 | reading what %ld prints gives the value back for every word |
| GrantTable.Grants.constructor | gnttab.c:210-211 | the fill loop links every reference above the reserved ones once |
| GrantTable.Grants.Push | gnttab.c:68-77 | the reference goes on top of the stack and the counter follows |
| GrantTable.Grants.Get | gnttab.c:80-93 | the top of the stack, not granted before; the trap is reached exactly when the stack is empty |
| GrantTable.Grants.GrantAccess | gnttab.c:95-108 | a free reference is filled in and no other entry changes |
| GrantTable.DecidedOnce | gnttab.c:124-140 | the stores of the other domain alone fix which flags end the loop |
| GrantTable.Grants.EndAccess | gnttab.c:124-140 | the reference is freed exactly if the flags that the swap, or the refusing read, meets do not show the other domain as using it; those are the first that are in use or that the swap finds unchanged |

## Left out

- Hypercalls, event channels, xenstore contents, traps and assembly: foreign behaviour, parameters here.
- `demolish_pagetable_vs`, `write_protect_vs` and 2MB pages in `arch/x86/mm.c`; ranges that are not page aligned; crashes of failing hypercalls.
- `num_free_bulk_pages` and completeness of the bulk search: the counter is not exact when a spilled small run is freed, and a hole below the hint may be refilled.
- The size of the allocation bitmap: enough words for every page up to the maximum reservation are assumed.
- PageAllocator.Pool.Decrease: callbacks in its lock gaps are assumed not to take pages of the run being released; its return value, which is that of the last chunk, is not modelled.
- PageAllocator.Pool.DeallocatePages: the counter is updated in the same step, though the code does so after dropping the lock.
- PageAllocator.Pool.Increase: others neither increase nor decrease the pool while the lock is dropped; `ThirdEntry` is what happens if they increase it.
- PageAllocator.Pool.AllocatePages: the same; page numbers and counts do not overflow.
- `guk_xrealloc` in `lib/xmalloc.c`; the calls that follow on a heap that `Malloc` left broken.
- Application-scheduler upcalls, the debugger, suspend, time slices and preemption points in `sched.c`; thread interrupts are one atomic step; removal from the sleep queue.
- The request-id free list and the response handler in `fs-front.c`; ring indices do not wrap.
- XenbusRing.Ring.Write: starts when there is room, so the wait for room and 32-bit wrap of the indices are not modelled; nor are watches.
- Console.Printer.Print: only after initialisation and for non-empty text; the overflow branch before initialisation is not modelled.
- Printf.Output.Run: a size that wraps the address space and overflow of width and precision are not modelled.
- `vsscanf` and the string functions: short loops whose bodies already say what they do.
- Block and network front ends, tracing and the debugging back ends: device plumbing.
- `gnttab_resume`: it pushes every reference again onto a non-empty list, so the free-list facts hold only from initialisation on.
