# A 32-bit x86 kernel's locks, boot memory, interrupts and page tables, in Dafny

This project models the parts of the kernel that other code trusts without looking: the
reader-writer lock and the spinlock, the boot memory allocator from the e820 map to the
blocks it hands out, the interrupt entry with the 8259A masks, the two builders of page
tables, and `itoa`. It states what these promise over every input and every run, and proves
it. Where the code does not keep a promise, a lemma gives the exact condition under which it
does.

`dafny verify dfyconfig.toml` checks everything.

| file | module | what it holds |
|---|---|---|
| `words.dfy`, `align.dfy` | `Words`, `Align` | machine words, rounding to powers of two |
| `counting.dfy`, `schedules.dfy` | `Counting`, `Schedules` | weighted counts over processors, and runs in which they move in any order |
| `rwlock.dfy` | `RwLock` | the biased lock word: every atomic instruction of N processors is a step |
| `spinlock.dfy` | `SpinLock` | the signed byte, the same way |
| `bitmap.dfy`, `bitops.dfy` | `Bitmap`, `Bitops` | the bitmap as bytes of memory, and its scan, instruction by instruction |
| `bootmem_model.dfy`, `bootmem.dfy` | `BootmemModel`, `Bootmem` | the allocator on values, and the class that changes the bitmap and memory in place |
| `bootmem_updates.dfy` | `BootmemUpdates` | what reserve, free and allocate do to pages |
| `bootmem_first_fit.dfy` | `BootmemFirstFit` | which page the scan settles on |
| `bootmem_goal.dfy` | `BootmemGoal` | when a request with a goal is answered at or above it |
| `bootmem_runs.dfy` | `BootmemRuns` | runs of allocations, frees and reserves by callers, with the bitmap out of harm's way |
| `bootmem_placed.dfy` | `BootmemPlaced` | the same runs with the bitmap in the memory that is handed out and cleared |
| `bootmem_bump.dfy` | `BootmemBump` | the allocator as a bump pointer |
| `setup.dfy` | `Setup` | the e820 map, and the globals that memory setup fills in |
| `page_tables.dfy`, `boot_map.dfy`, `paging.dfy` | `PageTables`, `BootMap`, `Paging` | translation, the startup tables, `paging_init` |
| `irq_model.dfy`, `irq.dfy`, `irq_runs.dfy` | `IrqModel`, `Irq`, `IrqRuns` | lines and controllers on values, in place, and over nested interrupts |
| `print.dfy` | `Print` | `itoa` and its round trip |

## How the model reads the code

- Concurrency: a schedule names the processor that takes its next atomic instruction; a
  theorem about all schedules is a theorem about all interleavings. `LOCK` counts as present.
  The two steps of `_raw_read_trylock` are two steps of the schedule.
- Words: 32-bit and 8-bit wrap-around are written out (`U32`, `Signed32`, `Signed8`). `x &
  ~(a - 1)` for a power of two `a` is rounding to a multiple of `a`; for `a` equal to 0 the
  mask is empty and the result is 0. `ALIGN` is not defined in the repository and is taken as
  rounding up to a power of two.
- In place: the lock words, the `last_*` fields, physical memory, directories, tables,
  interrupt lines, masks and print buffers are fields and arrays that methods change.
  Each method's postcondition equates the new state with a function of the old one, and the
  theorems are about that function.
- The bitmap is eight bits to a byte of physical memory, from the page where setup puts it.
  The class keeps the bits as a ghost field that its invariant ties to those bytes. Clearing a
  new block clears the bits in it, in the class (`BootmemModel.AllocAt`) and in the runs of
  `BootmemPlaced`. Memory is the gigabyte that has kernel addresses, and setup needs it to hold
  the bitmap; `BootMap.BitmapIsMapped` shows that it does for every page table the startup code
  builds.
- Allocator addresses are physical; the source adds `PAGE_OFFSET` to what it returns.
  `node_boot_start` is the 0 that `init_bootmem` passes. Memory beyond the bitmap is a
  parameter the scan may read; the result does not depend on it.
- Tables: the page directory is an array of its own, apart from the frames that hold tables.
- Controllers: a specific end-of-interrupt command (0x60 plus a level) clears that level's
  in-service bit in the chip it is sent to, as the 8259A does.
- Interrupts: the stretch of `__do_IRQ` before its handlers and the one behind them run with
  interrupts off, so each is one step. Drivers may install handlers, disable and enable
  lines, and mask and unmask them between steps.

## What the code does not do

- `find_first_zero_bit` is meant to return the first clear bit; its asm looks at one word and
  drops the word offset (`Bitops.FirstZeroBitIff`). The allocator is right nevertheless,
  because it tests the bit again.
- Alignments above a page make the scan miss free runs (`BootmemFirstFit.FirstFitIff`).
- A request may be answered below its goal although there is room at or above it
  (`BootmemGoal.GoalMetIff`). One cause is a goal inside a page, an alignment or more below the
  next boundary. Another is a last success above the goal: the search starts there and, if
  nothing fits from there on, starts over at page 0, so that it passes over the goal
  (`BootmemGoal.PassedOverGoal`). The third is a block merged into the page before the goal,
  where the last allocation ended (`BootmemGoal.MergedBelowGoal`).
- An alignment of 0 passes the `BUG_ON` and hands out bytes twice
  (`BootmemRuns.SafeAlignmentIff`); a request within a page of 4GB is granted without
  reserving a page (`BootmemRuns.SafeSizeIff`).
- Freeing stops at the first page that is free already, so e820 entries that overlap lose
  pages (`Setup.FreesListedIff`, `Setup.EndFreesListedIff`), and page numbers beyond 32 bits wrap
  (`Setup.EntryPagesIff`).
- Nothing reserves the bitmap, though new blocks are cleared: if it lies on a page that the map
  lists as RAM, a block may cover it, and then pages in use are handed out again. Callers are
  safe exactly if it does not, or if somebody reserves it first and all of it lies in the node;
  a reserve that leaves the node does nothing (`Setup.BootIsSafeIff`). The startup page tables
  right before it, or anything else in memory, are handed out in the same way when listed
  (`Setup.BootKeepsIff`, `BootMap.BootTablesKeptIff`).
- A request with a goal may be continued in a page that was freed (`BootmemRuns.LegalIff`);
  a request without one never is (`BootmemRuns.GoalFreeLegal`).
- The second `setup_arch` in `kmain.cc` frees what the first one's callers hold, and keeps the
  end of its last allocation (`Setup.SecondSetupIff`).
- Reserving and freeing compute ends of ranges that wrap at 4GB
  (`BootmemUpdates.ReserveExactIff`, `BootmemUpdates.FreeExactIff`).
- `alloc_bootmem` (`new/mm/bootmem.c:82-84`) has no `return`: its callers get the block's
  address only because it is still in the result register.
- An interrupt on an enabled line without handlers sets `IRQ_INPROGRESS` for good
  (`IrqRuns.IdleFlagIff`, `IrqRuns.StuckForever`). Acknowledging a slave line sends both
  commands to the slave (`IrqModel.AckCompleteIff`). An interrupt on a disabled line is noted as
  pending, but enabling the line replays nothing (`IrqRuns.DeferredWaits`).
- `paging_init` keeps whatever tables the directory has: if two slots share one, or one lies
  where a fresh table goes, the later slot's pages overwrite the earlier's (`Paging.PagingInit`).
- The comment at `new/boot/head.S:10` speaks of 128KB for the bitmap; the constant is 768KB,
  and the model follows the constant.

## Model

| member | source | states |
|---|---|---|
| `RwLock.TicketsConserved` | new/include/asm/rwlock.h:9-49 | in every reachable state of any number of processors the word is the bias minus the tickets that are out, failed and trylock tickets included, modulo 2^32; with no ticket out it is the bias |
| `RwLock.ExclusionIff` | new/kernel/semaphore.c:4-32 | a writer holds alone in every reachable state exactly up to 129 processors; from 130 on there is a schedule in which a reader gets in beside a writer |
| `RwLock.ExclusionStep` | new/include/asm/rwlock.h:9-49 | each single instruction keeps exclusion while the word counts the tickets of at most 129 processors |
| `RwLock.DecisionsExact` | new/kernel/semaphore.c:9-15 | a reader or read trylock succeeds, and a reader leaves its spin loop, exactly when no writer has a ticket; a writer succeeds, and leaves its loop, exactly when nobody else has one; up to 129 processors |
| `RwLock.HoldsAsAsked` | new/include/asm/rwlock.h:9-49 | over every schedule, whoever last started a write lock holds as a writer when it holds, whoever started a read lock or a read trylock as a reader; nobody is idle after a blocking lock before it has held; a failed trylock waits for nothing and ends idle |
| `RwLock.Progress` | new/kernel/semaphore.c:7-31 | from any state with a waiter, a schedule of at most one step per debt plus two, in which nobody enters the lock code, serves some processor, and if holders release that very waiter, who then holds the kind of lock it waits for |
| `RwLock.DeadlockFree` | new/kernel/semaphore.c:7-31 | no reachable state with a waiter and no holder is a deadlock: processors inside the lock code alone reach an acquisition within 2N+2 steps, and with releases every waiter can get the kind of lock it waits for |
| `RwLock.Machine.Step` | new/include/asm/spinlock.h:72-98 | the in-place instruction of any processor on the word in memory is exactly the step that the theorems are about |
| `SpinLock.SoundIff` | new/include/asm/spinlock.h:24-38 | at most one processor holds and `spin_is_locked` tells whether one does, in every reachable state, exactly up to 129 processors; the 130th decrement wraps the byte |
| `SpinLock.ByteBound` | new/include/asm/spinlock.h:21-33 | up to 129 processors the byte is at most 1, is 1 exactly when the lock is free, and is below 0 by no more than the processors in the wait loop |
| `SpinLock.DecisionsExact` | new/include/asm/spinlock.h:40-55 | up to 129 processors locking, trylocking and leaving the wait loop succeed exactly when nobody holds, and unlocking leaves nobody holding |
| `SpinLock.HoldsAsAsked` | new/include/asm/spinlock.h:24-55 | over every schedule nobody is idle after starting a lock before it has held, and who started a trylock holds or is idle at once |
| `SpinLock.FreeLockIsTaken` | new/include/asm/spinlock.h:24-33 | up to 129 processors a waiter on a free lock holds it after its own next two steps |
| `SpinLock.Machine.Step` | new/kernel/spinlock.c:53-62 | `decb`, `cmpb` and `xchgb` on the byte in memory are exactly the steps of the system |
| `Bitops.FirstZeroBitIff` | new/lib/bitops.c:3-27 | `find_first_zero_bit` returns the first clear bit exactly when the first word has one, or the size is 0 |
| `Bitops.FirstZeroBitExact` | new/lib/bitops.c:3-27 | what it returns on every bitmap: how far into the word its first clear bit is, or 0 if there is none or the size is 0 |
| `Bitops.NextNeverSkips` | new/lib/bitops.c:29-61 | the result of `find_next_zero_bit` is at or above the offset and no clear bit before it is skipped |
| `Bitops.NextZeroBitIff` | new/lib/bitops.c:29-61 | the bit at the result is clear, or past the end, exactly when the started word or the next one has a clear bit, or the next one is past the end |
| `Bitops.NextZeroBitExact` | new/lib/bitops.c:29-61 | what it returns on every bitmap: the first clear bit in the rest of the started word and the word behind it, and where that word starts if there is none |
| `Bitops.FindFirstZeroBit` | new/lib/bitops.c:3-27 | the scan of one word, including the result 0 for a word of ones |
| `Bitops.FindNextZeroBit` | new/lib/bitops.c:29-61 | the rest of the started word, then one whole word |
| `BootmemModel.PagesCoverIff` | new/mm/bootmem.c:209 | the pages of a request cover it exactly when `size + 4095` does not wrap; otherwise they are none |
| `BootmemModel.BitmapBytes` | new/mm/bootmem.c:118-123 | the bitmap is whole words and has a bit for every page, with fewer than 32 to spare |
| `BootmemModel.ScanFits` | new/mm/bootmem.c:213-236 | what the scan finds is in the node, clear, aligned to its step and not before its start |
| `BootmemModel.ScanSkips` | new/mm/bootmem.c:215-220 | where among the reserved pages the bit scan lands makes no difference to the page found |
| `BootmemModel.CommitInNode` | new/mm/bootmem.c:247-287 | in all three update cases the block ends inside the node and the remembered offset stays below a page |
| `BootmemModel.OffsetInPage` | new/mm/bootmem.c:255-256 | the merge offset never exceeds a page, so the `BUG_ON` is unreachable |
| `BootmemModel.BugIff` | new/mm/bootmem.c:171-176 | an allocation ends in a `BUG` exactly when its size is 0 or its alignment is neither 0 nor a power of two, and any that hands out no block leaves the node as it was |
| `BootmemModel.CandidatesIff` | new/mm/bootmem.c:210-236 | the pages the scan steps over from page 0 are all pages, or for an alignment of a page or more exactly those that begin at an aligned address |
| `BootmemModel.AllocAtExact` | new/mm/bootmem.c:283-290 | with the bitmap in the memory handed out: outcome and `last_*` are as without, the block is all zero, no byte apart from it and the bitmap changes, and of the bits those inside the block are cleared |
| `Bootmem.BootmemData.AllocCore` | new/mm/bootmem.c:163-291 | the whole allocation in place: outcome, `last_*`, bits and every byte of memory are those of the model, with the bitmap in the memory where the block is cleared last |
| `Bootmem.BootmemData.FindPlace` | new/mm/bootmem.c:213-245 | the scan with its restart, which happens at most once, whatever lies beyond the bitmap |
| `Bootmem.BootmemData.ReserveFound` | new/mm/bootmem.c:283-287 | the found pages become reserved, and the `BUG()` about a page that is taken already is unreachable |
| `Bootmem.BootmemData.CommitAt` | new/mm/bootmem.c:247-287 | the merge test and the three updates of `last_pos` and `last_offset` |
| `Bootmem.BootmemData.ReserveCore` | new/mm/bootmem.c:24-45 | the reserve loop marks the model's pages, and nothing when a guard fails; no byte outside the bitmap changes |
| `Bootmem.BootmemData.FreeCore` | new/mm/bootmem.c:47-76 | the free loop clears the model's pages, stops at a free page and lowers `last_success`; no byte outside the bitmap changes |
| `Bootmem.BootmemData.InitCore` | new/mm/bootmem.c:115-131 | the bitmap starts at page `mapstart` of memory, its bytes are filled so that every page is reserved, no other byte changes, and the end of the last allocation is not reset |
| `Bootmem.BootmemData.WriteBit` | new/include/asm/bitops.h:7-31 | one bit changes, in the byte that holds it, and its old value is returned |
| `Bootmem.BootmemData.NodeGap` | new/mm/bootmem.c:181-186 | the offset is the distance to the first aligned address of the node |
| `BootmemUpdates.ReserveExactIff` | new/mm/bootmem.c:24-45 | inside the node exactly the touched pages become reserved and a range that leaves it changes nothing, for all addresses and sizes if and only if the range does not wrap past its first page, or that page is outside the node or reserved; in the other case its first page alone becomes reserved |
| `BootmemUpdates.FreeExactIff` | new/mm/bootmem.c:47-76 | a page becomes free exactly when it lies wholly in the range and neither it nor an earlier page of the range was free, and a range beyond the node changes nothing, if and only if the range's end does not wrap or its wrap does no harm |
| `BootmemUpdates.FreesIff` | new/mm/bootmem.c:67-75 | a page that the loop clears is one that may be freed, whenever the end does not wrap |
| `BootmemUpdates.FreedPages` | new/mm/bootmem.c:47-76 | which pages become free, for all addresses and sizes, wraps included, and that nothing else but `last_success` changes |
| `BootmemUpdates.FreeThenReserve` | new/mm/bootmem.c:24-76 | reserving a freed range of the node again restores every map in which the pages it touches were reserved |
| `BootmemUpdates.AllocExact` | new/mm/bootmem.c:247-287 | unless a request is continued in a freed page, its block is aligned and in the node; exactly the touched pages become reserved; of the pages reserved before it uses only the tail of the last one; the last page is the one of its last byte and the next tail starts where it ends; and `last_success` is the page boundary at or behind its start |
| `BootmemUpdates.StaleIff` | new/mm/bootmem.c:189-274 | a request is continued in a freed page exactly when its goal makes the search start right behind that page and it fits there |
| `BootmemFirstFit.FirstFitIff` | new/mm/bootmem.c:213-236 | the scan finds the lowest aligned run on every bitmap exactly when it steps by single pages or wants a single page |
| `BootmemFirstFit.PlaceIsFirstFit` | new/mm/bootmem.c:188-245 | for alignments up to a page, or requests up to a page, the lowest run from the preferred page is taken, else the lowest of all, and none is reported only if there is none |
| `BootmemFirstFit.StartRespectsGoalIff` | new/mm/bootmem.c:188-203 | the page the scan starts from is at or above the goal, or the last success if that is higher, exactly when that address is less than one alignment below a page boundary; without a goal in the node it is page 0 |
| `BootmemGoal.GoalMetIff` | new/mm/bootmem.c:188-281 | for alignments or requests up to a page and every goal: a block is found exactly when an aligned run fits in the node, and it is at or above the goal exactly when the goal is 0, or in the node, the search reaches it, and the block is not merged in below it; the search reaches it exactly when a run fits from its start page on, not right there if that page is below the goal, or when none does and none fits below the goal |
| `BootmemGoal.WideGoalMetIff` | new/mm/bootmem.c:188-281 | the same for alignments above a page, where nothing is merged, in terms of what the two scans find |
| `BootmemGoal.AlignedGoalIff` | new/mm/bootmem.c:188-274 | at an aligned goal on a page boundary with room right there, for alignments or requests up to a page or a last success not above the goal: the block is at or above it exactly when a run fits from the start page on or none fits below the goal, and nothing is merged in below it; with the last success not above the goal it then begins at the goal |
| `BootmemGoal.BlockMeetsGoalIff` | new/mm/bootmem.c:247-281 | wherever the search ended, the block is at or above the goal exactly when the page found is and so is what it is continued from |
| `BootmemGoal.MergedBelowGoal` | new/mm/bootmem.c:250-265 | a request at free page 1 is answered at byte 64 of page 0 |
| `BootmemGoal.PassedOverGoal` | new/mm/bootmem.c:188-245 | with the last success at page 3, a request at free page 1 is answered at page 0 |
| `BootmemGoal.LastPageGiven` | new/mm/bootmem.c:188-281 | one request with a goal at page 3 of a free node leads there |
| `BootmemRuns.RunSafe` | new/mm/bootmem.c:24-291 | after any legal run of allocations, frees and reserves, the ranges callers hold are pairwise disjoint, in the node and on reserved pages |
| `BootmemRuns.LegalIff` | new/mm/bootmem.c:24-291 | a heap stays sound after a call if and only if the call is legal: for all frees, that no page becomes free that is touched by a range not given back; for all reserves, that no byte in use and none of the last page's tail is taken; for all requests aligned to something and without wrap, that they are not continued in a freed page |
| `BootmemRuns.GoalFreeLegal` | new/mm/bootmem.c:82-84 | a request without a goal never is, whatever was freed, nor is one while the last page is reserved |
| `BootmemRuns.AllocKeeps` | new/mm/bootmem.c:247-287 | a legal allocation keeps what is held disjoint and secure |
| `BootmemRuns.HeldBytesKept` | new/mm/bootmem.c:289 | over any legal run no byte of a range that is held throughout changes |
| `BootmemRuns.SafeAlignmentIff` | new/mm/bootmem.c:251-256 | allocations not continued in a freed page keep every sound heap sound exactly for nonzero alignments |
| `BootmemRuns.SafeSizeIff` | new/mm/bootmem.c:209-230 | and exactly for sizes up to 4GB less a page |
| `BootmemPlaced.PlacedRefines` | new/mm/bootmem.c:115-291 | while no block can touch the bitmap, every legal run with the bitmap in memory is a legal run with the bitmap elsewhere: same node, same holders, same bytes outside the bitmap, and in it the node's bits throughout |
| `BootmemPlaced.LegalAtIff` | new/mm/bootmem.c:24-291 | and a call keeps it so if and only if it is legal and frees no page of the bitmap |
| `BootmemPlaced.PlacedBytesKept` | new/mm/bootmem.c:289 | a byte outside the bitmap that is held throughout a run never changes |
| `BootmemPlaced.SafeIff` | new/mm/bootmem.c:115-291 | from a heap where nothing is held yet and no block has ended inside a page, all legal runs keep ranges secure and disjoint if and only if the node's pages under the bitmap are reserved; otherwise a legal run hands out bytes twice |
| `BootmemPlaced.SafeOnceHeldIff` | new/mm/bootmem.c:24-45 | the same after a first reserve of the bitmap's bytes: safe if and only if they all lie in the node, or those that do were reserved before |
| `BootmemPlaced.KeepsIff` | new/mm/bootmem.c:163-291 | from a heap where nothing is held and no block has ended inside a page, with the bitmap on reserved pages, no block ever lies on another range that callers leave alone if and only if the node's pages under it are reserved |
| `BootmemPlaced.KeptThroughout` | new/mm/bootmem.c:289 | a range on reserved pages, apart from what is held and from the last page's tail, keeps its bytes outside the bitmap over every legal run that leaves it alone |
| `BootmemBump.BumpRefinement` | new/mm/bootmem.c:213-281 | on one contiguous free region apart from the bitmap, all requests without a goal, aligned to at most a page, are answered as by a bump pointer, failures included |
| `BootmemBump.BumpStep` | new/mm/bootmem.c:213-281 | one request without a goal, aligned to at most a page: scan, merge test and updates amount to rounding the cursor up, and fail exactly when the whole pages asked for do not fit |
| `BootmemBump.SuccessiveBlocks` | new/mm/bootmem.c:82-84 | each of two successful `alloc_bootmem` calls in a row starts at the end of the one before, rounded up to 64 bytes |
| `Setup.MaxPfnIsMax` | new/kernel/setup.c:61-80 | the value found is the end of a usable RAM entry, or 0, and no usable entry ends higher |
| `Setup.MaxPfnBoundsPages` | new/kernel/setup.c:61-80 | every whole page of a RAM entry lies below it, and the page just below it is one of them |
| `Setup.Globals.FindMaxPfn` | new/kernel/setup.c:61-80 | the loop leaves that value in `max_pfn` |
| `Setup.Globals.FindMaxLowPfn` | new/kernel/setup.c:82-114 | low memory and all memory are capped at 896MB |
| `Setup.Globals.RegisterBootmemLowPages` | new/kernel/setup.c:116-139 | the loop over the map frees what the model frees, entry by entry |
| `Setup.MapStartIsLeast` | new/kernel/setup.c:29 | the bitmap's first page is the lowest at or above the end of the first page tables, and page 0 if rounding that end up wraps |
| `Setup.Globals.SetupMemory` | new/kernel/setup.c:28-59 | the globals, the node and memory after setup, for every map and whatever the node held before, with the bitmap on the page behind the first page tables; from static data that is the heap of `Setup.BootIsSafeIff` |
| `Setup.EntryPagesIff` | new/include/asm/setup.h:8-10 | an entry's page frame numbers are exactly the whole pages in it, for all 64-bit addresses and sizes and every 32-bit cap, if and only if no wrap moves an end below the cap |
| `Setup.OnlyListedFree` | new/kernel/setup.c:116-139 | no page outside the map's RAM ever becomes free |
| `Setup.FreesListedIff` | new/kernel/setup.c:116-139 | after every prefix of the map the free pages are exactly the listed ones, if and only if an entry that meets pages listed before is listed from there to its end |
| `Setup.FreesReached` | new/kernel/setup.c:116-139 | for every map, overlaps included, the free pages are exactly those that an entry has and none of whose pages up to there was reached before |
| `Setup.EndFreesListedIff` | new/kernel/setup.c:116-139 | at the end of the map they are exactly the listed ones if and only if every listed page is reached by some entry |
| `Setup.SetupExact` | new/kernel/setup.c:53-139 | for RAM entries that share no page and whose page numbers do not wrap below the cap, in any order, a page is free exactly when it is below the cap and wholly inside one of them |
| `Setup.BootIsSafeIff` | new/kernel/setup.c:28-59 | from boot on, for every memory map, what callers hold after legal runs is pairwise disjoint, in low memory and on reserved pages if and only if no page under the bitmap became free, that is, none is reached by an entry, and for maps that lose no pages, none is listed; after a reserve of the bitmap it is so if the bitmap lies in the node |
| `Setup.BootKeepsIff` | new/kernel/setup.c:53-59 | from boot on, with the bitmap on unlisted pages, any other range is never handed out if and only if none of its pages became free, that is, for maps that lose no pages, none is listed |
| `Setup.BumpAfterBoot` | new/kernel/setup.c:28-59 | for a map that lists one run of pages apart from the bitmap, requests without a goal from boot on are answered as by a bump pointer at its first page |
| `Setup.SecondSetupIff` | new/init/kmain.cc:115-123 | for every map a second setup leaves a sound heap exactly when nothing held lies on a page that becomes free, for maps that lose no pages on listed RAM, and for these the last page stays reserved exactly if it is not listed |
| `Setup.RebootGuardedIff` | new/init/kmain.cc:115-123 | for an unchanged memory map, with the bitmap in place and filled anew, the heap stays guarded, and all later legal runs are safe, exactly when neither what is held nor the bitmap lies on a page that becomes free |
| `PageTables.TablesTranslate` | new/include/linux/mm.h:5-12 | tables that map their pages to themselves, entered in both halves, translate every byte address to itself at 0 and at PAGE_OFFSET, with the flags stored in their entries |
| `BootMap.BuildBootTables` | new/boot/head.S:51-70 | the loop ends with the least number of tables that map themselves and the slack, which is given in closed form; they map all of it twice, writable and for user mode; no other entry or frame changes |
| `BootMap.BuildTable` | new/boot/head.S:55-65 | one round enters and fills one table and leaves the earlier ones as they are |
| `BootMap.BootableIff` | new/boot/head.S:65-70 | the loop can stop within the directory exactly when the whole directory would be enough |
| `BootMap.BitmapIsMapped` | new/boot/head.S:67-70 | for every e820 map the bitmap, on the page where setup puts it, begins exactly where the tables end and ends inside what they map |
| `BootMap.BootTablesKeptIff` | new/boot/head.S:51-70 | with the bitmap on unlisted pages, the startup tables right before it are never handed out exactly when, for maps that lose no pages, none of their pages is listed |
| `Paging.PagingInit` | new/mm/memory.c:6-40 | all pages that start below the end translate to themselves at 0 and at PAGE_OFFSET if and only if the tables already there are present, distinct and apart from the fresh ones; then no two slots share a table, and in both halves nothing is mapped from there to the end of the last table; tables already there stay, empty slots get the fresh frames in order; nothing else changes, and the result is the aligned start plus a page per empty slot |
| `Paging.MapSlot` | new/mm/memory.c:16-36 | one slot: its table is kept or made from the next frame, entered in both halves and filled, and only slots with the same table are disturbed |
| `Paging.EntriesApartIff` | new/mm/memory.c:17-26 | old and fresh tables are present and never the same frame if and only if the old ones are present, distinct and outside the fresh frames that are used |
| `IrqModel.CoherentKept` | new/kernel/irq.cc:310-397 | every controller operation writes one port, and still both mask ports show the cached mask |
| `IrqModel.EntryMasks` | new/kernel/irq.cc:167-199 | however an entry ends, its line is masked and out of service behind it, and no other line's mask or status changes |
| `IrqModel.EntryExact` | new/kernel/irq.cc:167-186 | the handlers are called exactly for an enabled line that has some and is not in progress; the line is in progress afterwards if it was or is enabled, and pending exactly if it was in progress or is disabled; every line stays as enabled as it was and keeps its handlers |
| `IrqModel.AfterChainExact` | new/kernel/irq.cc:193-199 | the handlers run again exactly if the line is pending, which it no longer is; otherwise it is in progress no more and unmasked unless disabled; every line stays as enabled as it was and keeps its handlers |
| `IrqModel.AckCompleteIff` | new/kernel/irq.cc:369-379 | acknowledging leaves nothing in service exactly for lines of the master |
| `IrqModel.AckExact` | new/kernel/irq.cc:358-397 | acknowledging masks the line alone; for a served one its own in-service bit is cleared, and bit 10 for a slave line, and no other; an interrupt that is masked and not in service is spurious, noted for its line and counted once |
| `Irq.Controller.constructor` | new/kernel/irq.cc:223-290 | after initialisation all lines are disabled and both ports show the mask |
| `Irq.Controller.MaskAndAckIrq` | new/kernel/irq.cc:358-397 | the mask, the port, the end-of-interrupt commands, and the spurious branch |
| `Irq.Controller.DoIrqEntry` | new/kernel/irq.cc:167-186 | the entry in place, up to the decision to call the handlers |
| `Irq.Controller.DoIrqAfterChain` | new/kernel/irq.cc:193-199 | the way back: another run, or the end of the activation |
| `IrqRuns.RunsAreSafe` | new/kernel/irq.cc:146-202 | over every run and nesting: no line has two activations; an activation's chain has run between once and once more than its nested arrivals; every arrival is followed by a chain run that started after it, or its line is live and pending; the ports show the mask |
| `IrqRuns.FlagsKept` | new/kernel/irq.cc:146-202 | over every run, whatever interrupts come and nest, a line stays as enabled as it was until a driver disables or enables it, and keeps its handlers until a driver installs others |
| `IrqRuns.Drains` | new/kernel/irq.cc:188-197 | when no more interrupts come, the handlers returning ends all activations, and then every arrival has had its run |
| `IrqRuns.IdleFlagIff` | new/kernel/irq.cc:176-186 | the in-progress flag of an idle line is clear exactly as long as no interrupt came while the line was enabled without handlers |
| `IrqRuns.StuckForever` | new/kernel/irq.cc:176-186 | after such an interrupt the line's handlers never start again, whatever happens |
| `IrqRuns.IdleStartsIff` | new/kernel/irq.cc:167-186 | a line that is not live starts its handlers exactly at its own interrupt while it is enabled, not stuck and has handlers |
| `IrqRuns.DeferredWaits` | new/kernel/irq.cc:172-186 | until then no run starts them, and what a deferred arrival left pending stays pending |
| `IrqRuns.EndsUnmasked` | new/kernel/irq.cc:346-350 | an activation that ends leaves its line unmasked, provided nobody disables the line while it is live |
| `IrqRuns.ServesAgain` | new/kernel/irq.cc:146-202 | an interrupt on an enabled, idle line with handlers starts them; if its activation ends after any run in which nobody disables the line, the line is idle, enabled and unmasked, and if it has handlers then, its next interrupt starts them again |
| `IrqRuns.EndsMasked` | new/kernel/irq.cc:346-350 | an activation whose line is disabled by then leaves its mask as it is |
| `IrqRuns.MaskedWhileLive` | new/kernel/irq.cc:172-199 | until then the line stays masked, unless a driver unmasks it |
| `IrqRuns.NestsIff` | new/kernel/irq.cc:149-151 | once an interrupt has started its handlers, others may come in exactly if the first handler lacks `SA_INTERRUPT` |
| `IrqRuns.NestingKept` | new/kernel/irq.cc:146-165 | over every run only activations that let interrupts in have others on top of them |
| `Print.RoundTrip` | new/lib/print.c:29-52 | for every 32-bit number the text consists of digits and reads back as that number: in hexadecimal for 'x', as a signed decimal for 'd', and in unsigned decimal for any other letter |
| `Print.NoLeadingZero` | new/lib/print.c:46-51 | only the number 0 starts with a zero |
| `Print.TextFits` | new/lib/print.c:29-56 | with its terminator the text is at most 12 bytes |
| `Print.Itoa` | new/lib/print.c:29-66 | the buffer holds the text and the terminator, and nothing behind it changes |
| `Print.WriteDigits` | new/lib/print.c:48-51 | the digit loop writes the numeral backwards |
| `Print.ReverseInPlace` | new/lib/print.c:53-65 | the two-pointer loop reverses its part of the buffer and nothing else |

## Left out

- Bootmem.BootmemData.AllocCore: sizes above 4GB less a page are excluded, because the scan then settles on whatever bit it reads beyond the bitmap and the clearing runs over all addresses; `BootmemRuns.SafeSizeIff` shows what such a size does to the model.
- Setup.Globals.SetupMemory: a bitmap that would not fit in the gigabyte of mapped memory is excluded; `BootMap.BitmapIsMapped` shows that the startup code leaves none.
- BootmemFirstFit.PlaceIsFirstFit: larger alignments with larger requests are excluded, since `BootmemFirstFit.FirstFitIff` shows the scan misses runs there.
- BootmemGoal.GoalMetIff: for the same reason larger alignments with larger requests are left to `BootmemGoal.WideGoalMetIff`, which speaks of what the scans find.
- Paging.PagingInit: memory above 1GB is excluded, because the directory has no slot above PAGE_OFFSET left for it, and so are tables outside memory.
- BootMap.BuildBootTables: kernels so large that 256 tables do not map them are excluded, as by `BootMap.BootableIff` the loop would run past the directory for exactly these, and so are memories too small for the tables.
- IrqRuns.RunsAreSafe: arrivals on disabled lines are recorded as deferred and are not promised a chain run; `IrqRuns.DeferredWaits` and `IrqRuns.IdleStartsIff` say when one follows.
- One processor for interrupts: `irq.cc` takes no descriptor lock.
- The `CONFIG_PREEMPT` lock loops, which need a write trylock the code does not have, and fairness, which the locks do not give.
- What handlers return: `__do_IRQ` ignores it. One chain run stands for the calls of all its handlers.
- `highmem_pages`, the printed messages, the PAE and high-memory branches, and the empty bootmem entry points.
- Controller programming other than the last bytes at the mask ports, the in-service bits and the specific end-of-interrupt commands; gates, descriptors, the boot sector and real-mode code.
- `new/kernel/irq.c` and `mm/memory.cpp`, simpler versions of files modelled here.
- `putchar`, `printk_new`, traps, lists, the C++ runtime and the build tool.
