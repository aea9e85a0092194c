# Verified model of the jNix memory stack, scheduler and file system

The kernel's memory stack has three layers, and this project models them together with the
small state machines above them. The classes keep the source's own state (headers in memory, a
bitmap in an array, table frames, queues, descriptors) and their methods follow the source
branch by branch and store by store, with 64-bit wrap-around written out where it can happen. Each method is
proved against a function or relation on values, and the theorems are about those.

| layer | files | classes |
|---|---|---|
| slab heap (`allocation.cpp`) | `Slabs`, `SlabRuns`, `SlabTheorems`, `SlabOwnership`, `SlabPartition`, `SlabIntact`, `SlabMemory`, `HeaderStores`, `KernelHeap`, `HeapRuns`, `HeapRegimes`, `HeapSupply` | `Allocator` |
| frame bitmap (`framealloc.cpp`) | `FrameBits`, `FrameSearch`, `FrameAnswer`, `FrameAlloc`, `FrameRuns` | `FrameAllocator` |
| page tables (`addrspace.cpp`) | `Bits`, `PageTables`, `TableTree`, `MapLoops`, `AddressSpace` | `AddrSpace` |
| scheduler (`scheduler.cpp`) | `SchedulerSpec`, `SchedulerWait`, `Scheduler` | `SchedulerState`, `Process` |
| vnode tree (`vfs.cpp`, `initrd.cpp`) | `Paths`, `VnodeTree`, `Mount` | `Vnode`, `Header` |
| archive blocks and numbers (`initrd.cpp`) | `Tar`, `InitrdMount` | |
| descriptors and file sizes (`vfs.cpp`, `initrd.cpp`) | `FileTable` | `Vfs`, `Descriptor`, `Inode` |
| shared | `Common` and `Words` (in `Common.dfy`), `Pigeonhole` | |

## Main results

- **Heap.** Every pointer operation of `kallocate` and `kfree` on the circular header list refines
  five moves on the list of slabs. Memory holds the list as long as headers and payloads in use are
  pairwise disjoint (`SlabIntact.Intact`), with no hypothesis on the order of page runs: `kfree` always
  keeps that, and `kallocate` does in two regimes a caller can check, proved from `init` on. Either
  page runs come in ascending order, or they come in any order and slabs are joined only on their own
  memory. Over all such runs sizes add up to the pages acquired, ends agree with addresses modulo
  4096, and a block keeps its address, its size and every byte through all calls and stores of others.
- **Heap memory.** With pages in any order the slabs still partition the memory acquired after a call if
  and only if what it joins is adjacent. With ascending growth they cover only memory acquired, over a
  whole run, if and only if every call was of that kind; contiguous growth gives it, and then the slabs
  tile the heap. The sequence of headers written is exact, and every one lies in memory that was free
  or new at that time if and only if every aligned call asks for a page or more.
- **Frames for the heap.** As long as no heap frame is freed, a run answered to a request of up to nine
  pages is new to the heap; of a longer one, the pages that the search looked at are.
- **Allocation then free** restores the list if and only if the slab has no free list neighbour
  that `kfree` swallows with it, which is always so in a coalesced list.
- **Page tables.** `map_page` goes well if and only if there are as many free frames as tables missing,
  and takes exactly those. Then the hardware walk (section 4.5 of the Intel 64 and IA-32 Architectures
  Software Developer's Manual, Volume 3A) sends the page to its frame with its flags and every other
  page where it went before. The invariant behind it: table frames are distinct, in use in the bitmap,
  and each is the target of exactly one entry. All of `bootstrap` goes well if and only if there are
  frames for the tables of all pages mapped, and then every address, mapped or not, translates as the
  last of the four loops that maps its page says: every frame of memory is found, writable, at its or'd
  address, every frame of the kernel at its link address, and the framebuffer at its shifted one, but
  for pages that a later loop maps again.
- **Frames.** The bitmap refines a set of free frames, over all runs of the allocator's calls. The
  contiguous search vouches for every run it returns if and only if at most nine frames are asked
  for, and its run lies in the bitmap, whatever lies behind it, if and only if the first frame from
  which the bitmap's part of the walk is free does not start too late. After construction a frame
  is free if and only if it lies in a usable region and does not hold the bitmap, up to one frame.
- **Scheduler.** Over all runs pids are distinct, slots exact, and at most the current process is
  RUNNING. A process is resumed after exactly a computed number of ticks, not earlier, and within
  one round of slices and swaps.
- **Files.** Over any interleaving of open, close, seek, read and write, positions stay in their
  files and no file shrinks, as long as the end of each write fits 64 bits; a write shrinks its
  file if and only if it does not. After `mount`, `find` of a header's name
  returns its vnode if and only if the header is registered there and no earlier one is. From the blocks
  of an archive in good order, `mount` and `find` lead from every file's name to a vnode of its size.

## Where the code departs from its intent

The model follows the code. The members named give the exact condition or an input.

- `kfree` joins list neighbours without comparing addresses. It stays on the bytes of the list if
  and only if the slabs it joins are adjacent (`SlabOwnership.FreeWithin` for an ascending list,
  `SlabPartition.FreePartition` for any); otherwise a free slab covers pages never acquired
  (`SlabOwnership.HoleSwallowed`) or a block in use. The frame allocator's first fit does answer runs
  below earlier ones with nothing freed (`HeapSupply.AnswersOutOfOrder`). Memory follows three such
  calls and two frees (`HeapRegimes.PagesOutOfOrderFair`); the next request then writes a header over
  that of a block in use, which from then on reads free and is linked to itself
  (`HeapRegimes.HeaderLost`). Theorems about the list with pages anywhere say nothing of memory from
  there on.
- The aligned path puts the block behind a tail with room wherever the new pages lie, so the block
  lies in its pages if and only if they start where that tail ends (`SlabTheorems.AlignedBlock`,
  `SlabOwnership.AlignedInHole`), and a later call then writes a header into memory never acquired
  (`SlabOwnership.HeaderInHole`).
- It rounds the request down to whole pages, so the block holds it exactly when it is a multiple of
  4096 (`SlabTheorems.AlignedBlock`). It leaves two free neighbours exactly when the tail is free
  but smaller than a header (`SlabTheorems.AlignedCoalescedExactly`). With less than a page asked
  for it writes a header just behind the pages it acquired (`HeaderStores.AlignedStoresExactly`).
- A plain request within 32 bytes of 2^64 wraps the page count (`KernelHeap.PageCountExactly`).
- The contiguous search tests a phantom ninth position per byte, which always reads free, so the
  last frames of a run of ten or more go unseen (`FrameSearch.ContiguousExactly`,
  `FrameAnswer.AnswerFreeExactly`). It also reads, and allocation then writes, behind the bitmap:
  `FrameAnswer.AnswerLeavesBitmap` is an input, `FrameAnswer.AnswerInsideExactly` the condition.
- The constructor of the frame allocator marks one frame too many when the bitmap starts and ends
  on frame boundaries, and misses one that holds it when it starts late in a frame
  (`FrameAlloc.BitmapMarkedExactly`).
- The memory total is the sum of all entries of the memory map
  (`kernel/arch/x86_64/memory/memmap.cpp:71-72`), so with a hole in the map a region can end above
  it and the constructor writes behind the bitmap (`FrameAlloc.BehindUntouchedExactly`).
- A table entry keeps the write flag of the first mapping under it, so a page is writable only if
  every such entry is (`AddressSpace.AddrSpace.MapPage`). `notexecutable` is never written.
- `bootstrap` takes the bitmap's virtual address for a physical one, so its last loop maps other frames
  than the bitmap's, at twice the offset (`MapLoops.BitmapLoopFrame`).
- `at()` past the end dereferences null where the scheduler's comment expects null back; the model
  reads null. `find` and `lookup` fall off the end on failure; the model returns null.
- `mount` takes an empty regular file for a directory and cuts its last character
  (`Mount.CutExactly`), registers a path that ends with a slash elsewhere
  (`Mount.RegisteredExactly`), so a header is registered at the path its name spells only under
  `Mount.OwnPathExactly`'s condition; it dereferences null when a parent is missing.
- `create` writes the size left aligned, so it reads back exactly only when it has eleven octal
  digits (`Tar.SizeFieldExactly`, `FileTable.GrownReread`).
- A write to a file without a header moves the position back by one byte, or from 0 to the end
  (`FileTable.FailedWritePosition`).

## Model

| member | source | states |
|---|---|---|
| `SlabRuns.StepSound` | kernel/arch/x86_64/memory/allocation.cpp:362-555 | every operation on the list keeps residues modulo 4096 and bytes covered = 4096 times pages acquired, wherever pages lie; separation with ascending growth, tiling with contiguous growth |
| `SlabRuns.RunSound` | kernel/arch/x86_64/memory/allocation.cpp:65-107 | the same over every legal run of list operations in all three growth regimes; with pages anywhere it speaks of memory as far as the calls are fair (`HeapRuns.ReplayFromInit`) |
| `SlabRuns.FreshSound` | kernel/arch/x86_64/memory/allocation.cpp:557-563 | init's one-slab list satisfies the invariant |
| `SlabTheorems.PlainBlock` | kernel/arch/x86_64/memory/allocation.cpp:483-555 | first fit: size between n and n + 32, an old slab exactly when one fits, else the new run |
| `SlabTheorems.AlignedBlock` | kernel/arch/x86_64/memory/allocation.cpp:367-482 | the aligned pointer is a multiple of 4096 in both branches wherever new pages lie; the block holds n exactly when n is whole pages; a block of a page or more lies in the pages acquired for it if and only if a tail with room ends where they start |
| `SlabTheorems.RunAligned` | kernel/arch/x86_64/memory/allocation.cpp:367-482 | the same for the list after every run from init, wherever new pages lie; of memory as far as the calls are fair |
| `SlabTheorems.StepLive` | kernel/arch/x86_64/memory/allocation.cpp:362-555 | a block in use keeps address and size through every operation but its own kfree |
| `SlabTheorems.RunLive` | kernel/arch/x86_64/memory/allocation.cpp:362-555 | the same for the list over every run that does not free the block; in memory by `HeapRuns.Replay` for fair calls |
| `SlabTheorems.RunDisjoint` | kernel/arch/x86_64/memory/allocation.cpp:118-162 | with ascending growth two slabs never overlap, headers included, over every run |
| `SlabTheorems.RunTiles` | kernel/arch/x86_64/memory/allocation.cpp:118-162 | with contiguous growth each byte of the pages acquired, from the first page on, lies in exactly one slab, over every run |
| `SlabTheorems.GrowTiledExactly` | kernel/arch/x86_64/memory/allocation.cpp:118-162 | a new run keeps the tiling if and only if it starts at the tail's end |
| `SlabTheorems.RunHead` | kernel/arch/x86_64/memory/allocation.cpp:557-563 | the head of the list stays at the first page over every run |
| `SlabTheorems.PlainCoalesced` | kernel/arch/x86_64/memory/allocation.cpp:483-555 | plain kallocate leaves no two free list neighbours |
| `SlabTheorems.FreeCoalesced` | kernel/arch/x86_64/memory/allocation.cpp:65-107 | kfree leaves no two free list neighbours |
| `SlabTheorems.AlignedCoalescedExactly` | kernel/arch/x86_64/memory/allocation.cpp:378-482 | the aligned path does so if and only if the tail is not a free slab smaller than a header |
| `SlabTheorems.RunCoalesced` | kernel/arch/x86_64/memory/allocation.cpp:65-107 | no two free neighbours over every run of plain kallocate and kfree |
| `SlabTheorems.AllocThenFree` | kernel/arch/x86_64/memory/allocation.cpp:483-555 | kfree after a plain kallocate that found a slab restores the list, split or not, if and only if no free neighbour is swallowed; always in a coalesced list |
| `SlabTheorems.GrowThenFree` | kernel/arch/x86_64/memory/allocation.cpp:484-495 | when the heap had to grow, kfree leaves the new pages as one free slab, joined to a free tail |
| `SlabOwnership.FreeWithin` | kernel/arch/x86_64/memory/allocation.cpp:65-107 | the slabs after kfree cover only bytes they covered before if and only if each free list neighbour that is joined is adjacent |
| `SlabOwnership.AlignedExactly` | kernel/arch/x86_64/memory/allocation.cpp:378-482 | the aligned path keeps the slabs on exactly the memory acquired, or, over a gap behind a tail with room and from a page on, covers the gap's first byte |
| `SlabOwnership.StepExactly` | kernel/arch/x86_64/memory/allocation.cpp:362-555 | with the new run behind the tail one call keeps the slabs on exactly the memory acquired if and only if it is snug; otherwise some slab covers a byte nobody acquired |
| `SlabOwnership.StepHole` | kernel/arch/x86_64/memory/allocation.cpp:362-555 | no later call repairs that |
| `SlabOwnership.RunOwned` | kernel/arch/x86_64/memory/allocation.cpp:362-555 | over every ascending run from init: all slabs lie in memory acquired if and only if every call was snug |
| `SlabOwnership.ContiguousSnug` | kernel/arch/x86_64/memory/allocation.cpp:118-162 | with contiguous growth every call is snug |
| `SlabOwnership.HoleSwallowed` | kernel/arch/x86_64/memory/allocation.cpp:69-99 | for every first page b: two blocks with a page between them are freed, and one free slab covers that page |
| `SlabOwnership.AlignedInHole` | kernel/arch/x86_64/memory/allocation.cpp:380-420 | for every first page b: the payload of an aligned page lies wholly in a page never acquired |
| `SlabOwnership.HeaderInHole` | kernel/arch/x86_64/memory/allocation.cpp:497-540 | freed again, it lets a plain request write a header there |
| `SlabPartition.JoinExactly` | kernel/arch/x86_64/memory/allocation.cpp:69-99 | replacing neighbours by one slab keeps the partition if and only if that covers exactly what they covered |
| `SlabPartition.FreePartition` | kernel/arch/x86_64/memory/allocation.cpp:65-107 | with pages in any order kfree keeps the partition of the memory acquired if and only if what it joins is adjacent, the freed slab and its successor in either order when both neighbours are free |
| `SlabPartition.StepPartition` | kernel/arch/x86_64/memory/allocation.cpp:362-555 | the same for every call that acquires new memory: the aligned path keeps it if and only if, from a page on, a tail with room ends where the new pages start |
| `SlabPartition.RunPartition` | kernel/arch/x86_64/memory/allocation.cpp:362-555 | over every run of such calls, in any order of pages, the slabs partition the memory acquired |
| `SlabIntact.FreeIntact` | kernel/arch/x86_64/memory/allocation.cpp:65-107 | kfree keeps headers and payloads in use pairwise disjoint, whatever it joins |
| `SlabIntact.PlainFootprint` | kernel/arch/x86_64/memory/allocation.cpp:483-555 | sizes and headers grow by the pages acquired, in any order |
| `SlabIntact.AlignedFootprint` | kernel/arch/x86_64/memory/allocation.cpp:367-482 | the same for the aligned path |
| `SlabMemory.LinksInverse` | kernel/arch/x86_64/memory/allocation.cpp:118-162 | next and previous are mutual inverses on the ring |
| `SlabMemory.GrowLinked` | kernel/arch/x86_64/memory/allocation.cpp:143-159 | the four stores of create_new_pages append one slab to the ring |
| `SlabMemory.SplitLinked` | kernel/arch/x86_64/memory/allocation.cpp:516-540 | the stores of the bifurcation insert one slab behind slab k and touch no other link |
| `SlabMemory.MergeLinked` | kernel/arch/x86_64/memory/allocation.cpp:69-99 | both orders of stores in kfree remove one slab from the ring and give the same memory |
| `HeaderStores.PlainStoresFreeOrNew` | kernel/arch/x86_64/memory/allocation.cpp:483-555 | every header plain kallocate writes replaces an old one or lies in a free slab or in the new run |
| `HeaderStores.FreeStoresOld` | kernel/arch/x86_64/memory/allocation.cpp:65-107 | kfree writes old headers only |
| `HeaderStores.AlignedStoresExactly` | kernel/arch/x86_64/memory/allocation.cpp:378-482 | with new pages outside the heap the aligned path writes only such memory if and only if at least a page is asked for |
| `KernelHeap.Allocator.constructor` | kernel/arch/x86_64/memory/allocation.cpp:557-563 | init leaves a valid heap of one free page |
| `KernelHeap.Allocator.FindLastSlab` | kernel/arch/x86_64/memory/allocation.cpp:114-116 | the head's previous link is the tail |
| `KernelHeap.Allocator.CreateNewPages` | kernel/arch/x86_64/memory/allocation.cpp:118-162 | appends a free slab with the 64-bit size, wherever the run lies, and keeps all payload bytes in use |
| `KernelHeap.Allocator.FindFreeSlab` | kernel/arch/x86_64/memory/allocation.cpp:164-186 | the walk returns the first slab that fits, null exactly when none does |
| `KernelHeap.Allocator.Carve` | kernel/arch/x86_64/memory/allocation.cpp:497-552 | the signed 64-bit arithmetic splits exactly when more than a header is left, and marks the slab used |
| `KernelHeap.RestSize` | kernel/arch/x86_64/memory/allocation.cpp:504-511 | that arithmetic computes the rest exactly, negative when a header does not fit |
| `KernelHeap.PageCountExactly` | kernel/arch/x86_64/memory/allocation.cpp:486-495 | the page count is the number of pages needed if and only if the request plus a header fits 64 bits |
| `KernelHeap.Allocator.KallocatePlain` | kernel/arch/x86_64/memory/allocation.cpp:483-555 | refines first fit on the list; the block returned; every payload in use keeps its bytes; the exact headers written |
| `KernelHeap.AlignTailSteps` | kernel/arch/x86_64/memory/allocation.cpp:380-420 | growing, bifurcating the tail and merging, in 64-bit arithmetic, is the list move even for no page |
| `KernelHeap.AlignFreshSteps` | kernel/arch/x86_64/memory/allocation.cpp:421-482 | the two bifurcations and the merge of the other branch are the list move |
| `KernelHeap.Allocator.KallocateAligned` | kernel/arch/x86_64/memory/allocation.cpp:367-482 | refines the aligned move on the list; every payload in use keeps its bytes; the exact headers written |
| `KernelHeap.Allocator.BifurcateLinkFirst` | kernel/arch/x86_64/memory/allocation.cpp:388-407 | the aligned path's order of links gives the same split |
| `KernelHeap.Allocator.Swallow` | kernel/arch/x86_64/memory/allocation.cpp:409-413 | the empty slab takes the new pages, size first, as a merge does |
| `KernelHeap.Allocator.Kallocate` | kernel/arch/x86_64/memory/allocation.cpp:362-555 | both paths for the 64-bit product of size and count |
| `KernelHeap.Allocator.CoalesceNext` | kernel/arch/x86_64/memory/allocation.cpp:69-83 | the stores merge slab k with its list successor in 64-bit arithmetic |
| `KernelHeap.Allocator.CoalescePrevious` | kernel/arch/x86_64/memory/allocation.cpp:85-99 | the stores merge slab k + 1 into its list predecessor |
| `KernelHeap.Allocator.Kfree` | kernel/arch/x86_64/memory/allocation.cpp:65-107 | refines marking free and joining both neighbours; every other payload in use keeps its bytes; the exact headers written |
| `KernelHeap.Allocator.WriteByte` | kernel/arch/x86_64/memory/allocation.cpp:362-555 | the owner's write hits no header and no other block's bytes |
| `HeapRuns.FairRunLegal` | kernel/arch/x86_64/memory/allocation.cpp:362-555 | a fair run of calls that free by address is a legal run of list operations |
| `HeapRuns.Replay` | kernel/arch/x86_64/memory/allocation.cpp:362-555 | over any fair run in memory, with stores of owners in between, the headers hold exactly the list of the specification run, the headers written are exactly its stores, and a watched block, if any, keeps address, size and every byte |
| `HeapRuns.ReplayFromInit` | kernel/arch/x86_64/memory/allocation.cpp:557-563 | the same from init for every fair run, also one that frees all blocks, with the accounting and residues of the list |
| `HeapRuns.RunStoresExactly` | kernel/arch/x86_64/memory/allocation.cpp:362-555 | over any fair run with new pages outside the heap every header is written to memory that was free or new at that time if and only if every aligned call asks for a page or more |
| `HeapRuns.RunStoresOwned` | kernel/arch/x86_64/memory/allocation.cpp:118-162 | when slabs are moreover joined on their own memory only, in any order of pages, every byte of every header written lies in memory acquired |
| `HeapRegimes.AscendingFair` | kernel/arch/x86_64/memory/allocation.cpp:362-555 | with each run behind the tail every proper call is fair |
| `HeapRegimes.OwnCallsFair` | kernel/arch/x86_64/memory/allocation.cpp:362-555 | with each run new, in any order, and slabs joined on their own memory, every proper call is fair |
| `HeapRegimes.AscendingFromInit` | kernel/arch/x86_64/memory/allocation.cpp:557-563 | from init in ascending order: memory holds the list, the layout is kept, and headers lie in free or new memory exactly for aligned calls of a page or more |
| `HeapRegimes.OwnFromInit` | kernel/arch/x86_64/memory/allocation.cpp:557-563 | from init in any order: memory holds the list, its slabs partition the memory acquired, and headers lie in it |
| `HeapRegimes.PagesOutOfOrderFair` | kernel/arch/x86_64/memory/allocation.cpp:85-99 | input, for every page b above 0: three blocks in pages 2, 0 and 3 and two frees, which memory follows, leave a free slab over the block in page 3 |
| `HeapRegimes.HeaderLost` | kernel/arch/x86_64/memory/allocation.cpp:516-540 | the next plain request puts a header over that of the block in use: memory says it is free and its own neighbour, the list still has it in use |
| `HeapSupply.RequestNew` | kernel/arch/x86_64/memory/framealloc.cpp:93-125 | with no run given back, each run handed out is new in the pages that the search looked at, and altogether if at most nine are asked for |
| `HeapSupply.AnswersOutOfOrder` | kernel/arch/x86_64/memory/framealloc.cpp:93-125 | input: requests of 1, 2 and 1 pages answered with frames 0, 4 and 1, nothing freed |
| `FrameBits.PhantomBit` | kernel/arch/x86_64/memory/framealloc.cpp:77-79 | position 8 of any byte reads free |
| `FrameBits.UsedAt` | kernel/arch/x86_64/memory/framealloc.cpp:77-79 | the in-use flag of frame f is bit f % 8 of byte f / 8 |
| `FrameBits.UsedMarked` | kernel/arch/x86_64/memory/framealloc.cpp:127-133 | or-ing the bit marks frame f and no other |
| `FrameBits.UsedCleared` | kernel/arch/x86_64/memory/framealloc.cpp:135-141 | masking the bit frees frame f and no other |
| `FrameBits.UsedInjective` | kernel/arch/x86_64/memory/framealloc.cpp:127-141 | equal sets of frames in use mean equal bytes |
| `FrameSearch.WalkExactly` | kernel/arch/x86_64/memory/framealloc.cpp:100-113 | the stepwise walk succeeds exactly when every one of the num + 1 nine-per-byte slots reads free |
| `FrameSearch.CandidateExactly` | kernel/arch/x86_64/memory/framealloc.cpp:93-125 | the search stops at frame f if and only if the first num + 1 - (b + num + 1) / 9 frames from f are free |
| `FrameSearch.ContiguousExactly` | kernel/arch/x86_64/memory/framealloc.cpp:93-125 | a successful walk means num free frames, for all memories, if and only if b + num <= 16 |
| `FrameSearch.SetRunUndone` | kernel/arch/x86_64/memory/framealloc.cpp:161-181 | marking and then freeing a run restores the set if and only if the run was free |
| `FrameAnswer.AnswerFreeExactly` | kernel/arch/x86_64/memory/framealloc.cpp:93-125 | the first answer of the search is a free run, for all memories, if and only if num <= 9 |
| `FrameAnswer.AnswerIsFirstOpen` | kernel/arch/x86_64/memory/framealloc.cpp:93-125 | whatever lies behind the bitmap, the answer is the first frame from which the bitmap's own part of the walk is free, or there is none |
| `FrameAnswer.AnswerInsideExactly` | kernel/arch/x86_64/memory/framealloc.cpp:93-125 | the answer lies in the bitmap, for all contents behind it, if and only if that frame is at least num before its end |
| `FrameAnswer.AnswerLeavesBitmap` | kernel/arch/x86_64/memory/framealloc.cpp:93-125 | input: a bitmap of eight frames from which the search answers nine |
| `FrameAnswer.AnswerInside` | kernel/arch/x86_64/memory/framealloc.cpp:93-125 | with the bitmap's last bit in use a run of up to nine frames stays inside |
| `FrameAlloc.IdxAddrInverse` | kernel/arch/x86_64/memory/framealloc.cpp:143-152 | the two conversions are inverse on frame addresses and on indices with a bit below 8 |
| `FrameAlloc.FrameAllocator.GetNumBitmapUsedFrames` | kernel/arch/x86_64/memory/framealloc.cpp:73-75 | the least number of whole frames that holds the bitmap |
| `FrameAlloc.FrameAllocator.Boot` | kernel/arch/x86_64/memory/framealloc.cpp:9-64 | fails exactly when no region above 1 MiB is long enough, else takes the last such; the bitmap has the least bytes with a bit for every frame; the state of every bit, those behind the bitmap included; for a page-aligned bitmap a frame is free if and only if a usable region frees it and it neither holds the bitmap nor follows one that ends on a frame boundary |
| `FrameAlloc.BitmapMarkedExactly` | kernel/arch/x86_64/memory/framealloc.cpp:53-61 | the frames marked include all that hold the bitmap if and only if its start and size modulo 4096 sum to at most 4096, and are exactly those if and only if moreover not both are 0 |
| `FrameAlloc.BitmapMarkedAligned` | kernel/arch/x86_64/memory/framealloc.cpp:53-61 | for a page-aligned bitmap: the frames that hold it, and the next one when its size is whole frames |
| `FrameAlloc.BehindUntouchedExactly` | kernel/arch/x86_64/memory/framealloc.cpp:42-61 | nothing behind the bitmap is written if and only if every region and the bitmap end below the last frame it describes |
| `FrameAlloc.FreedByAligned` | kernel/arch/x86_64/memory/framealloc.cpp:42-51 | for page-aligned regions those are the frames inside a region, and padding bits stay used |
| `FrameAlloc.BitmapFrameExact` | kernel/arch/x86_64/memory/framealloc.cpp:53-61 | the xor recovers the first bitmap frame when the base is disjoint from the offset |
| `FrameAlloc.FrameAllocator.ChooseBitmap` | kernel/arch/x86_64/memory/framealloc.cpp:21-34 | a region is found if and only if one ends above 1 MiB and is long enough; the bitmap is at the or'd base of the last of those |
| `FrameAlloc.FrameAllocator.BitmapMarkUsed` | kernel/arch/x86_64/memory/framealloc.cpp:127-133 | in place, exactly one frame becomes used |
| `FrameAlloc.FrameAllocator.BitmapMarkFree` | kernel/arch/x86_64/memory/framealloc.cpp:135-141 | in place, exactly one frame becomes free |
| `FrameAlloc.FrameAllocator.IsFrameUsed` | kernel/arch/x86_64/memory/framealloc.cpp:77-79 | the bit test, phantom position included |
| `FrameAlloc.FrameAllocator.FindFreeFrame` | kernel/arch/x86_64/memory/framealloc.cpp:81-91 | the lowest free frame, or all are used |
| `FrameAlloc.FrameAllocator.FindContiguousFrames` | kernel/arch/x86_64/memory/framealloc.cpp:93-125 | the first frame from which the walk succeeds, which is the first open frame of the bitmap, or there is none |
| `FrameAlloc.FrameAllocator.AllocFrame` | kernel/arch/x86_64/memory/framealloc.cpp:154-159 | returns the lowest free frame and marks it and nothing else |
| `FrameAlloc.FrameAllocator.FreeFrame` | kernel/arch/x86_64/memory/framealloc.cpp:172-174 | frees exactly the one frame |
| `FrameAlloc.FrameAllocator.AllocContiguousFrames` | kernel/arch/x86_64/memory/framealloc.cpp:161-170 | marks exactly the run at the first candidate, the first open frame of the bitmap before the call |
| `FrameAlloc.FrameAllocator.FreeContiguousFrames` | kernel/arch/x86_64/memory/framealloc.cpp:176-181 | frees exactly the run |
| `FrameAlloc.FrameAllocator.AllocThenFree` | kernel/arch/x86_64/memory/framealloc.cpp:161-181 | freeing what was just allocated restores the memory byte for byte if and only if the run was wholly free |
| `FrameRuns.TakeRefines` | kernel/arch/x86_64/memory/framealloc.cpp:154-159 | alloc_frame removes the minimum of the set of free frames |
| `FrameRuns.GiveRefines` | kernel/arch/x86_64/memory/framealloc.cpp:172-174 | free_frame adds its frame to the set |
| `FrameRuns.NotHandedOutTwice` | kernel/arch/x86_64/memory/framealloc.cpp:154-181 | over every run no frame is handed out twice without a free between, except behind the first num + 1 - (b + num + 1) / 9 frames of a contiguous run |
| `FrameRuns.Replay` | kernel/arch/x86_64/memory/framealloc.cpp:154-181 | any calls of the allocator, up to one that panics, are such a run and leave exactly its set of frames in use |
| `Bits.XorOrExactly` | include/kernel/memory/addrspace.hpp:60-61 | virt_to_phys inverts phys_to_virt if and only if the address has no bit in common with the offset |
| `PageTables.DirEntryFields` | include/kernel/memory.h:40-57 | the fields the hardware reads from an entry that points to a table |
| `PageTables.LeafEntryFields` | kernel/arch/x86_64/memory/addrspace.cpp:253-261 | or-ing the page-aligned address into the flags disturbs neither, as the hardware reads them; the address field that `memory.h` declares one bit lower is not used |
| `PageTables.PathExactly` | kernel/arch/x86_64/memory/addrspace.cpp:195-199 | two addresses take the same path through the tables if and only if bits 12 to 47 agree |
| `TableTree.OneParent` | kernel/arch/x86_64/memory/addrspace.cpp:204-249 | a table below the pml4 is the target of exactly one entry |
| `TableTree.AddTableWellformed` | kernel/arch/x86_64/memory/addrspace.cpp:204-217 | linking a fresh zeroed frame keeps the tree invariant |
| `TableTree.AddTableWalk` | kernel/arch/x86_64/memory/addrspace.cpp:204-217 | and changes no translation |
| `TableTree.AddTableOpen` | kernel/arch/x86_64/memory/addrspace.cpp:204-217 | and, linked without the write bit, closes to writes exactly the paths through it |
| `TableTree.EmptyTree` | kernel/arch/x86_64/memory/addrspace.cpp:94-99 | a zeroed pml4 alone is a tree under which nothing is mapped and every path is open |
| `TableTree.SetLeafWalk` | kernel/arch/x86_64/memory/addrspace.cpp:251-263 | the leaf store changes no other page's translation |
| `TableTree.SetLeafFound` | kernel/arch/x86_64/memory/addrspace.cpp:251-263 | the walk to the page finds the leaf, writable as far as the whole path is |
| `AddressSpace.AddrSpace.AllocZeroedFrame` | kernel/arch/x86_64/memory/addrspace.cpp:88-92 | fails exactly when no frame of the bitmap is free; else the frame was free, is now in use, and holds zeros |
| `AddressSpace.SuppliedExactly` | kernel/arch/x86_64/memory/addrspace.cpp:204-249 | tables are added as far as frames go, one frame each, so all goes well if and only if there are as many free frames as tables missing |
| `AddressSpace.AddrSpace.NextTable` | kernel/arch/x86_64/memory/addrspace.cpp:204-217 | one level of map_page: the child table, linked if missing for exactly one free frame, with all translations as before; it fails only when none is free |
| `AddressSpace.AddrSpace.MapPage` | kernel/arch/x86_64/memory/addrspace.cpp:187-264 | goes well if and only if there are as many free frames as tables missing, always when the page table exists, and takes exactly those frames; then it is a map update on bits 12 to 47; a path through a table linked without the write bit is closed to writes, every other as before; a panic leaves no frame free and every translation as it was |
| `AddressSpace.AddrSpace.CreateRoot` | kernel/arch/x86_64/memory/addrspace.cpp:94-99 | fails exactly when no frame is free; an empty pml4 maps nothing |
| `AddressSpace.AddrSpace.LastUsable` | kernel/arch/x86_64/memory/addrspace.cpp:122-138 | the highest end of any region, rounded down to a page |
| `AddressSpace.AddrSpace.MapAccessibleSpace` | kernel/arch/x86_64/memory/addrspace.cpp:147-152 | every address goes to the last frame that the loop mapped at its page, or where it went before; the tables added are exactly those of these pages; it stops early only when no frame is free |
| `MapLoops.DirectTurns` | kernel/arch/x86_64/memory/addrspace.cpp:147-152 | the frames mapped are those from 0 up to last |
| `MapLoops.DirectMapComplete` | kernel/arch/x86_64/memory/addrspace.cpp:122-152 | with an offset disjoint from all addresses, below 2^48, nothing is shadowed, and virt_to_phys leads back |
| `AddressSpace.AddrSpace.MapRegion` | kernel/arch/x86_64/memory/addrspace.cpp:168-185 | the same for the loop over a region at its shifted addresses, with its rights |
| `MapLoops.RegionTurns` | kernel/arch/x86_64/memory/addrspace.cpp:172-184 | the frames mapped are those that end behind the region's base and start below its end |
| `MapLoops.RegionComplete` | kernel/arch/x86_64/memory/addrspace.cpp:168-185 | in a region of at most 2^48 bytes nothing is shadowed |
| `MapLoops.RegionShadowed` | kernel/arch/x86_64/memory/addrspace.cpp:168-185 | in a longer one the first page is |
| `MapLoops.KernelTurns` | kernel/arch/x86_64/memory/addrspace.cpp:154-166 | the turns of map_kernel_region and the addresses it maps |
| `MapLoops.MeantLast` | kernel/arch/x86_64/memory/addrspace.cpp:94-120 | of several loops the last one that maps a page decides; a page that none maps is absent |
| `AddressSpace.AddrSpace.BootstrapDirect` | kernel/arch/x86_64/memory/addrspace.cpp:94-103 | from the empty pml4, every frame of memory translates to itself, writable, from its or'd address, and virt_to_phys leads back; it goes well if and only if there are frames for the tables |
| `AddressSpace.AddrSpace.MapKernelRegion` | kernel/arch/x86_64/memory/addrspace.cpp:154-166 | the same for the kernel at its link addresses, writable |
| `MapLoops.BootMeaning` | kernel/arch/x86_64/memory/addrspace.cpp:94-120 | what the four loops mean frame by frame: memory, kernel and framebuffer are found, each unless a later loop maps the page, what the bitmap's loop maps is found without exception, and any other address is absent |
| `AddressSpace.AddrSpace.Bootstrap` | kernel/arch/x86_64/memory/addrspace.cpp:94-120 | goes well if and only if the free frames suffice for the pml4 and the tables of all pages mapped; then every address translates as the last of the four loops that maps its page says, and so frame by frame; else no frame is free |
| `MapLoops.BitmapLoopFrame` | kernel/arch/x86_64/memory/addrspace.cpp:109-119 | the bitmap's loop is given the bitmap's virtual address, and maps the bitmap's own frames if and only if the offset has none of the bits 12 to 51 |
| `SchedulerSpec.TickSound` | kernel/scheduler/scheduler.cpp:55-97 | a tick keeps distinct pids, exact slots and the current process as the only one RUNNING |
| `SchedulerSpec.AddSound` | kernel/scheduler/scheduler.cpp:170-180 | adding with fewer than 4096 processes finds a pid and keeps the invariant |
| `SchedulerSpec.RemoveSound` | kernel/scheduler/scheduler.cpp:194-202 | removing a process other than the current one keeps the invariant |
| `SchedulerSpec.PidAvailable` | kernel/scheduler/scheduler.cpp:155-163 | by pigeonhole a slot is 0 while there are fewer than 4096 processes |
| `SchedulerSpec.RunFromInit` | kernel/scheduler/scheduler.cpp:155-202 | over every run of add, remove and tick from init pids differ, a slot is 1 exactly when a queued process holds it, and exactly the current process, if any, is RUNNING |
| `SchedulerWait.OneTurn` | kernel/scheduler/scheduler.cpp:55-97 | after the rest of the slice and one tick the queue successor runs with a full slice |
| `SchedulerWait.ResumedOnTime` | kernel/scheduler/scheduler.cpp:35-97 | process j is resumed after exactly Wait ticks, from any tick count |
| `SchedulerWait.NotEarlier` | kernel/scheduler/scheduler.cpp:35-97 | and at no earlier tick |
| `SchedulerWait.WaitingBound` | kernel/scheduler/scheduler.cpp:35-97 | that is at most the sum over the queue of slice + 1 |
| `Scheduler.SchedulerState.GetNextProcInQueue` | kernel/scheduler/scheduler.cpp:35-53 | the process at the next position modulo the length; the first, or null, when there is no current one |
| `Scheduler.SchedulerState.SwapToNextProcess` | kernel/scheduler/scheduler.cpp:55-83 | the old process PAUSED, the successor RUNNING with 1000, 100 or 10 ticks for its priority, all others as they were |
| `Scheduler.SchedulerState.SchedOnTick` | kernel/scheduler/scheduler.cpp:85-97 | refines one tick and keeps the invariant |
| `Scheduler.SchedulerState.GetAvailablePid` | kernel/scheduler/scheduler.cpp:155-163 | the least pid whose slot is 0, now 1 |
| `Scheduler.SchedulerState.AddProcess` | kernel/scheduler/scheduler.cpp:170-180 | a new PAUSED process of the priority asked for at the end of the queue, with the least free pid, which is no longer free |
| `Scheduler.SchedulerState.RemoveProcess` | kernel/scheduler/scheduler.cpp:194-202 | the process leaves the queue, its slot is 0, the current process stays |
| `Paths.SplitPath` | kernel/arch/x86_64/vfs/vfs.cpp:110-134 | returns the components; idx always equals the offset of cur |
| `Paths.StrSplit` | kernel/libk/monitor.cpp:471-496 | the differently indexed splitter computes the same function of any delimiter |
| `Paths.SplitRuns` | kernel/arch/x86_64/vfs/vfs.cpp:110-134 | every maximal run is a component at its place, and there are as many components as runs |
| `Paths.SplitNames` | kernel/arch/x86_64/vfs/vfs.cpp:110-134 | components are non-empty and free of the delimiter |
| `Paths.SplitJoin` | kernel/arch/x86_64/vfs/vfs.cpp:110-134 | splitting inverts joining for every list of names |
| `Paths.SplitLetters` | kernel/arch/x86_64/vfs/vfs.cpp:110-134 | splitting loses delimiters and nothing else |
| `VnodeTree.Find` | kernel/arch/x86_64/vfs/vfs.cpp:269-297 | follows the component list through the first child of each name; null for a relative or missing path |
| `Mount.FindRegistered` | kernel/arch/x86_64/vfs/vfs.cpp:269-297 | in a tree built by mount, find returns the first node registered at the path's components, null when there is none |
| `Mount.Attach` | kernel/arch/x86_64/drivers/initrd.cpp:286-288 | adding a child keeps every node where it was registered |
| `Mount.ParentPath` | kernel/arch/x86_64/drivers/initrd.cpp:271-282 | the part before the last slash |
| `Mount.MountHeader` | kernel/arch/x86_64/drivers/initrd.cpp:228-291 | one header: succeeds exactly when the path has a name and its parent is found; the vnode's number, size, kind and place |
| `Mount.MountHeaders` | kernel/arch/x86_64/drivers/initrd.cpp:228-292 | the loop succeeds exactly when every parent is the root or was registered before; then header k has number k + 1 |
| `Mount.RegisteredExactly` | kernel/arch/x86_64/drivers/initrd.cpp:242-288 | a header is registered at its own path if and only if that does not end with a slash |
| `Mount.CutExactly` | kernel/arch/x86_64/drivers/initrd.cpp:235-239 | cutting the last character keeps the path if and only if it was a slash |
| `Mount.OwnPathExactly` | kernel/arch/x86_64/drivers/initrd.cpp:228-290 | a header is registered at the path its name spells if and only if the name has one of three forms |
| `Mount.MountedPath` | kernel/arch/x86_64/vfs/vfs.cpp:269-297 | the first node registered at a header's name is its own if and only if it is registered there and no earlier header is |
| `Mount.MountThenFind` | kernel/arch/x86_64/drivers/initrd.cpp:205-295 | after mount, find of "/" and a header's name returns the vnode with its number, and with its size and kind, if and only if both hold |
| `Mount.GoodArchiveMounts` | kernel/arch/x86_64/drivers/initrd.cpp:228-292 | an archive with each directory before its children, distinct paths, directory names ending with one slash and no empty file is placed as a whole, each header at its own path |
| `Mount.MountGoodArchive` | kernel/arch/x86_64/drivers/initrd.cpp:205-295 | for such an archive mount succeeds and find returns the vnode of any header |
| `InitrdMount.TrackHeaders` | kernel/arch/x86_64/drivers/initrd.cpp:205-214 | the headers tracked are those of the files the archive was written from, in order, with the sizes that parse_size reads |
| `InitrdMount.MountImage` | kernel/arch/x86_64/drivers/initrd.cpp:205-295 | from the blocks of an archive in good order: after mount, find of any file's name returns the vnode with its number, size and kind |
| `Tar.ParseSize` | kernel/arch/x86_64/drivers/initrd.cpp:173-178 | eleven digits from the right, in 64-bit arithmetic, whatever the bytes |
| `Tar.DigitWeight` | kernel/arch/x86_64/drivers/initrd.cpp:173-178 | the digit at position i of n weighs 8 to the power n - 1 - i |
| `Tar.ToOctal` | kernel/arch/x86_64/drivers/initrd.cpp:50-69 | the octal digits, left aligned and zero filled, in at most 22 bytes for every 64-bit number |
| `Tar.DigitsValue` | kernel/arch/x86_64/drivers/initrd.cpp:50-69 | the digits denote the number |
| `Tar.DigitsFit` | kernel/arch/x86_64/drivers/initrd.cpp:51-51 | 22 bytes are enough |
| `Tar.ParsePadded` | kernel/arch/x86_64/drivers/initrd.cpp:173-178 | parse_size inverts the zero-padded eleven-digit form |
| `Tar.SizeFieldExactly` | kernel/arch/x86_64/drivers/initrd.cpp:85-114 | the size that create writes reads back if and only if 8^10 <= n < 8^11 |
| `Tar.ReadHeader` | kernel/arch/x86_64/drivers/initrd.cpp:180-195 | the header reached by idx strides from the start, null at an empty name; for files written one after another, each in the least number of blocks that holds it, the block where header idx was put |
| `Tar.StridePacked` | kernel/arch/x86_64/drivers/initrd.cpp:186-188 | the stride is the header block and that least number |
| `Tar.WalkMeetsHeaders` | kernel/arch/x86_64/drivers/initrd.cpp:180-195 | in such an archive the walk meets exactly the headers written, and then the empty name |
| `Tar.CollectHeaders` | kernel/arch/x86_64/drivers/initrd.cpp:205-214 | restarting from the beginning each time visits the headers of one forward pass, in order; for files written one after another, exactly the blocks where their headers were put |
| `FileTable.SeekExactly` | kernel/arch/x86_64/vfs/vfs.cpp:163-187 | for sizes below 2^63 a seek succeeds if and only if its signed target lies in the file, and goes there |
| `FileTable.SeekInside` | kernel/arch/x86_64/vfs/vfs.cpp:163-187 | whatever wraps, no seek leaves the file |
| `FileTable.Descriptor.Seek` | include/kernel/vfs/descriptor.hpp:21-28 | the 64-bit sum, stopped at the size |
| `FileTable.WriteSize` | kernel/arch/x86_64/drivers/initrd.cpp:122-131 | the end moves exactly to where the write stops; the file shrinks if and only if that place does not fit 64 bits |
| `FileTable.WritePosition` | kernel/arch/x86_64/vfs/vfs.cpp:189-206 | the writer then stands behind its bytes, modulo 2^64 |
| `FileTable.FailedWritePosition` | kernel/arch/x86_64/vfs/vfs.cpp:199-203 | after the driver's -1 the position is one less, or the size when it was 0 |
| `FileTable.HeadersMoved` | kernel/arch/x86_64/drivers/initrd.cpp:116-146 | with distinct names and numbers a write past the end moves the file's header to the end of the list, all others in order; it is then the only one of its number, and has the file's name and the size field that create writes; any other write leaves the list |
| `FileTable.GrownReread` | kernel/arch/x86_64/drivers/initrd.cpp:116-146 | after a growing write the file's header is the new one, and its size reads back if and only if it has eleven octal digits |
| `FileTable.Vfs.GetFd` | kernel/arch/x86_64/vfs/vfs.cpp:29-34 | the descriptor of that id, null when there is none |
| `FileTable.Vfs.FindFreeFd` | kernel/arch/x86_64/vfs/vfs.cpp:36-41 | the least unused id, at most the number of open descriptors |
| `FileTable.Vfs.UsedIdsBound` | kernel/arch/x86_64/vfs/vfs.cpp:36-41 | by pigeonhole n used ids need n open descriptors, which bounds the loop |
| `FileTable.Vfs.Open` | kernel/arch/x86_64/vfs/vfs.cpp:146-153 | -1 for no vnode; else a descriptor with the least unused id, position 0, behind the others |
| `FileTable.Vfs.Close` | kernel/arch/x86_64/vfs/vfs.cpp:157-161 | that descriptor goes and no other; -1 when there is none |
| `FileTable.Vfs.Seek` | kernel/arch/x86_64/vfs/vfs.cpp:163-187 | the new position for all modes and failures; every position stays in its file |
| `FileTable.Vfs.GetHeader` | kernel/arch/x86_64/drivers/initrd.cpp:166-171 | the first header with the inode number |
| `FileTable.Vfs.RemoveHeader` | kernel/arch/x86_64/drivers/initrd.cpp:72-83 | the first header of that name leaves the list |
| `FileTable.Vfs.DriverWrite` | kernel/arch/x86_64/drivers/initrd.cpp:116-146 | the new size and header list, the latter as in HeadersMoved, or -1 and nothing changed without a header |
| `FileTable.Vfs.DriverRead` | kernel/arch/x86_64/drivers/initrd.cpp:149-164 | the greatest count that exceeds neither the one asked for nor the size the header shows |
| `FileTable.Vfs.Read` | kernel/arch/x86_64/vfs/vfs.cpp:208-225 | that count, and the position behind it or at the end of the file, whichever comes first |
| `FileTable.Vfs.Write` | kernel/arch/x86_64/vfs/vfs.cpp:189-206 | the whole new state: file size, position behind the bytes written modulo 2^64, and headers as in HeadersMoved; afterwards all positions lie in their files if and only if the end fits 64 bits or the other positions in the file are at most the wrapped end |
| `FileTable.Vfs.Interleave` | kernel/arch/x86_64/vfs/vfs.cpp:146-225 | any interleaving of all five calls keeps ids distinct and positions in their files, and shrinks no file, up to a write whose end does not fit 64 bits |

## Left out

- Addresses of new page runs: the frame allocator's answer, or'd with the offset, is a parameter of `kallocate`; `HeapSupply` says when it is new.
- KernelHeap.Allocator.CreateNewPages: needs the place of the new header to be vacant and not null; its page-table call has no effect on the heap.
- KernelHeap.Allocator.KallocatePlain: for calls whose block and headers hit nothing in use and keep the heap below 2^63 bytes (`PlainClear`); what memory holds after any other is shown by HeaderLost only, and requests whose page count wraps by PageCountExactly only.
- KernelHeap.Allocator.KallocateAligned: the same (`AlignedClear`).
- KernelHeap.Allocator.Kallocate: shares both limits of the two paths.
- Read-only and executable slabs: no kernel caller asks for them, so those flags stay false in the list; FindFreeSlab still compares them.
- User slabs (uallocate, ufree) and repair_slab_table: the user list head is never set.
- FrameAlloc.FrameAllocator.FindContiguousFrames: assumes enough memory behind the bitmap for the walk; panics are None, and 32-bit loop counters are unbounded.
- A contiguous search with eight slots per byte, which the source does not have.
- AddressSpace.AddrSpace.MapPage: tables are read and written by physical frame number, through the direct map that the source relies on; lookup, unmap, the destructor and the copy constructor are not modelled.
- AddressSpace.AddrSpace.Bootstrap: the top of memory is computed before the pml4 is allocated, which makes no difference; 64-bit wrap of the mapped addresses is not modelled, because only bits 12 to 47 matter; region ends are unbounded numbers.
- Scheduler.SchedulerState.RemoveProcess: not for the current process, after which the next swap would find nothing; loading, stacks and execution of a process have empty bodies or no effect on this state.
- SchedulerSpec.RemoveSound: excludes the current process for the same reason.
- SchedulerSpec.RunFromInit: more than 4096 processes are excluded, because get_available_pid then returns nothing.
- VnodeTree.Find: lookup is the same walk from the VFS root and has no model of its own.
- Mount.MountHeaders: returns false where the source dereferences null; modes, owners and times (atoi fields), attach and the mountpoint table are left out, and a name is a string without the 100-byte limit of its field.
- Tar.ReadHeader: assumes that the walk stays inside the archive.
- Tar.CollectHeaders: assumes that an empty name ends the archive.
- FileTable.Vfs.DriverWrite: file bytes are not modelled, nor the copies that overrun the old data; the name is read before its header is removed.
- FileTable.Vfs.DriverRead: returns the count only, for the same reason.
- FileTable.Vfs.Open: takes the inode that stat found; flags, modes and the vnode's stream list are not modelled. `halted` stands for the halt without a free id.
- Drivers, interrupts, control registers, devices, ELF loading and the monitor commands: hardware access or no deep state.
