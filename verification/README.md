# A verified model of the snek_os kernel's core

snek_os is a bare-metal x86-64 kernel written in Rust. This project models the parts of it whose correctness rests on
an argument over every run: the memory stack (slab allocator, demand paging, frame allocator), the wake-up protocol
between interrupt handlers and tasks, two device rings, the PS/2 byte machines and controller handshake, the PCI scan,
and the boot logo and text console.

State the kernel updates in place is a class whose methods carry out the source's steps and loops; each method is tied
by its contract to a function on values. The properties are lemmas about those functions. Whatever the kernel does not
control (the order of interrupts, what a controller or a NIC does next, what a client writes into memory it owns, what
the fallback heap answers) is a parameter or a step of an arbitrary interleaving. A panic is a value: `None`, `false`,
or an error constructor, so a lemma can say exactly when one happens.

## Layout

| file | what it holds |
|---|---|
| `Wrappers`, `Bytes`, `Sums`, `Arith` | option values, little-endian words and flat memory, sums over maps, ring arithmetic |
| `Slab`, `Allocator`, `Heap` | one slab; seven slabs and a fallback heap; the allocators as objects |
| `Frames`, `FrameAllocator` | the bump array and the frame allocator; the same as objects |
| `Paging`, `Mapping`, `Machine` | page faults, the search for free pages, and one core with its memory as an object |
| `HeapOnPages`, `AllocatorOnPages` | one slab, and the whole allocator, on demand-paged memory |
| `FrameBudget`, `KernelHeap` | where physical frames go; the kernel's heap with the kernel's bounds on that machine |
| `Wake` | interrupt handler, queue, waker and task as atomic steps |
| `Nvme`, `E1000` | an NVMe queue pair and its controller; the e1000 receive ring and its NIC |
| `Mouse`, `Ps2Port`, `Ps2Controller`, `Ps2Driver` | packet decoding, device enumeration, interrupts, polled set-up |
| `Ps2Chip` | what the set-up does to the controller |
| `Pci`, `PciResolver` | the bus scan as functions and as the recursive object |
| `Codec`, `Display`, `DisplayDevice` | the logo codec, the screen as a value, the screen as an object |
| `Painting`, `TypedText`, `Logo` | the bytes a pixel changes; characters and the cursor; the logo from the picture to the framebuffer |

## What the proofs found

Several properties one would expect turn out to hold only under a condition. In each case the model follows the code,
and the condition is proved to be exact.

- The slab allocator asks only where a cell starts, and the assertion in its `init` looks at the previous `start`, which
  is still zero. Cells stay inside their region exactly if the region is a multiple of the cell size
  (`Slab.StaysInRegionIff`) and are aligned exactly if the region is (`Slab.StaysAlignedIff`).
- For the whole allocator on flat memory this means that live allocations are disjoint in every run exactly if an eighth
  of the heap is a multiple of 2048, provided it holds at least one such cell (`Allocator.InitDisjointIff`). The kernel's
  own bounds do not meet that: the last 2048-byte cell reaches 512 bytes into the fallback heap
  (`Allocator.KernelSlabs`).
- What sticks out is where the fallback heap keeps the first hole of its free list. So besides overlapping a heap block,
  the holder of that cell can write into that list, after which nothing is promised of the heap; nobody else can
  (`Allocator.TrespassIsLast`).
- On the machine the kernel runs on, that cell is the last of 7516192768 to be handed out, and each of them has had its
  page mapped. Two live allocations can come to overlap, and the free list can come to be written to, exactly if there
  are at least 3765450784 usable frames, 14 TiB (`KernelHeap.OverlapIff`); with less memory neither ever happens
  (`KernelHeap.SafeOnPages`). The misalignment of the same slab needs no such memory: with eight frames, the first
  allocation with an alignment of 2048 shows it (`KernelHeap.MisalignIff`).
- The node array of the frame allocator is never reclaimed, so the number of frames that can ever be given back is fixed
  (`Frames.GivePanicsIff`), and it does not look at alignment, so its nodes are aligned exactly if the first is
  (`Frames.NodesAlignedIff`).
- An NVMe completion that reports an error leaves the host's index in place, and from then on every `submit` returns
  that entry at once. Every `submit` of a run returned its own completion exactly if none but the last reported an error
  (`Nvme.AllOwnIff`).
- `recv` on the e1000 does not remember that a packet is out. Ending a second token for it trips the assertion, unless
  a later packet is waiting in the same descriptor (`E1000.SecondTokenIff`), as can happen after one lap
  (`E1000.SecondTokenCanPass`); then the ring is left in order only if by chance nothing distinguishes the two
  (`E1000.SecondTokenBreaks`).
- The PCI scan ends exactly if no path of bridges comes back to a bus it has been on (`Pci.TerminatesIff`,
  `Pci.ResolveEndsIff`).
- The logo encoder never writes the last run and the decoder stops one row short. The two fit together exactly if the
  last run is at most one row long (`Codec.RoundTrip`, which also settles images of a single row).
- Scrolling leaves the first byte of the cleared area uncleared (`Display.ScrollMoves`), so it is a clean scroll exactly
  if what is left there is zero (`Display.CleanScrollIff`).

Two places where code and build mode matter: the 16-bit NVMe command identifier is modelled as wrapping, as a release
build does (a debug build would panic at the 65536th command), and the encoder's 16-bit run counter is modelled as
stopping the build, as a debug build does.

## Model

| member | source | states |
|---|---|---|
| Slab.AllocFromList | crates/snalloc/src/lib.rs:150-170 | with freed cells left, the one freed last is handed out, was not live, and the links through the others survive |
| Slab.AllocFromFrontier | crates/snalloc/src/lib.rs:158-165 | with nothing freed, a link of zero means the next untouched cell: it is handed out and the frontier moves by one |
| Slab.FrontierAnswer | crates/snalloc/src/lib.rs:158-165 | the zero link of the first untouched cell makes `next` move on by exactly one cell |
| Slab.DeallocKeepsShape | crates/snalloc/src/lib.rs:172-181 | a freed cell becomes the head of the list and leaves the live ones; the rest of the list and everything past the frontier are as before |
| Slab.FrameKeepsShape | crates/snalloc/src/lib.rs:150-181 | whatever clients write inside what they hold, or anything outside the slab, is invisible to the free list |
| Slab.ReachableCell | crates/snalloc/src/lib.rs:154-159 | what a client holds, and what would be handed out next, is one of the slab's cells |
| Slab.AllocKeepsInv | crates/snalloc/src/lib.rs:150-170 | an allocation keeps the heap well shaped, changes nothing if it returns null, and otherwise hands out a cell nobody held, with its link cleared |
| Slab.AllocNullIff | crates/snalloc/src/lib.rs:154-169 | a well-shaped slab answers null exactly if every cell is out |
| Slab.RunKeepsInv | crates/snalloc/src/lib.rs:150-181 | over every run of allocations, releases and client writes: the links visit each freed cell once, avoid live cells, end at the frontier, the region past it is zero, and `used` is the sum of the live sizes |
| Slab.AllocAnswer | crates/snalloc/src/lib.rs:154-169 | after every run, null is returned exactly if every cell is live; otherwise the answer is a cell apart from every live one |
| Slab.FitsIff | crates/snalloc/src/lib.rs:135-140 | the last cell ends with the region exactly if the region is a multiple of the cell size |
| Slab.StaysInRegionIff | crates/snalloc/src/lib.rs:135-170 | allocations stay inside the region in every run exactly if its length is a multiple of the cell size |
| Slab.StaysAlignedIff | crates/snalloc/src/lib.rs:135-170 | allocations are aligned to the cell size in every run exactly if the region is aligned or empty |
| Allocator.ClassFits | crates/snalloc/src/lib.rs:23-26 | the slab chosen for a layout has cells at least as large as its size and alignment |
| Allocator.FirstFit | crates/snalloc/src/lib.rs:23-26 | for every layout, the slab chosen holds its size and its alignment and no slab before it does; the fallback heap is asked exactly if one of the two exceeds 2048 |
| Allocator.SlabRequestKeeps | crates/snalloc/src/lib.rs:83-87 | an allocation served by a slab keeps every slab, the fallback heap and the live set in order |
| Allocator.HeapRequestKeeps | crates/snalloc/src/lib.rs:83-93 | so does one the fallback heap answers with any free, aligned, large enough block, or null |
| Allocator.SlabReleaseKeeps | crates/snalloc/src/lib.rs:95-98 | releasing a slab's block gives it back to that slab and disturbs no other |
| Allocator.HeapReleaseKeeps | crates/snalloc/src/lib.rs:95-106 | releasing a block of the fallback heap disturbs no slab |
| Allocator.WriteKeeps | crates/snalloc/src/lib.rs:83-106 | a client's write inside any live block keeps all slabs well shaped, even in the part of the last cell that sticks out |
| Allocator.AllocatorSafe | crates/snalloc/src/lib.rs:82-108 | over every run in which no client writes into the fallback heap's free list: a pointer is never handed out while held, each can be given back to what served it, each slab's `used` is the sum of its live layout sizes, and live allocations are disjoint if the last slab holds whole cells or its last cell is not out, while otherwise only that cell and a heap block that begins inside it can overlap; no client does write there if the last slab holds whole cells or its last cell has never been out |
| Allocator.TrespassIsLast | crates/snalloc/src/lib.rs:154-169 | only the holder of the last slab's last cell, where it sticks out of its region, can write into the fallback heap's free list |
| Allocator.InvNextIsNew | crates/snalloc/src/lib.rs:83-93 | whichever request comes next, slab or fallback heap, the answer is null or a pointer nobody holds |
| Allocator.RequestServed | crates/snalloc/src/lib.rs:83-87 | after every run, a request a slab serves is refused, with nothing changed, exactly if all cells of that slab are out; otherwise its client gets one of them that nobody held |
| Allocator.HeldBytesKept | crates/snalloc/src/lib.rs:82-108 | over every run, a byte of a block that stays held keeps its value until somebody writes to that byte, whatever is requested, released and written meanwhile, but for bytes that stick out into the fallback heap |
| Allocator.BlocksApart | crates/snalloc/src/lib.rs:82-108 | two live blocks of a well-shaped allocator are apart, or are that cell and that block |
| Allocator.AllocatorAlignedIff | crates/snalloc/src/lib.rs:62-93 | every allocation of every run that leaves the fallback heap's free list alone has its layout's alignment exactly if each slab starts aligned to its cells |
| Allocator.FirstCellMisaligned | crates/snalloc/src/lib.rs:135-140 | a slab whose region is misaligned hands out a misaligned block with its very first cell |
| Allocator.LastSlabCollides | crates/snalloc/src/lib.rs:62-75 | if the last slab's cells run past the start of the fallback heap, some legal run on flat memory makes two live allocations overlap and some writes into that heap's free list, whatever the heap's own set-up has stored |
| Allocator.InitGood | crates/snalloc/src/lib.rs:62-75 | an eighth that is a multiple of 512 is enough for whole cells in the first six slabs and for every link word in the last, whatever the fallback heap's own set-up has stored in its region |
| Allocator.InitDisjointIff | crates/snalloc/src/lib.rs:62-75 | on flat memory, for any heap whose eighth holds one of the largest cells: live allocations are disjoint in every run, and no run writes into the fallback heap's free list, exactly if an eighth of the size is a multiple of 2048 |
| Allocator.KernelSlabs | kernel/src/allocator.rs:3-9 | with the kernel's bounds the first six slabs are aligned and hold whole cells, the seventh is neither and overruns by 512 bytes |
| Allocator.KernelSafe | kernel/src/allocator.rs:3-9 | the kernel's bounds give all that `Allocator.AllocatorSafe` promises of a last slab that does not hold whole cells, and the alignment asked for unless that is 2048 |
| Allocator.KernelMisaligned | kernel/src/allocator.rs:3-9 | the kernel's first allocation with an alignment of 2048 is misaligned |
| Allocator.KernelCollides | kernel/src/allocator.rs:3-9 | with the kernel's bounds, on flat memory, two live allocations can overlap and the fallback heap's free list can be written to; how much physical memory that takes is `KernelHeap.OverlapIff` |
| Heap.SlabAllocator.constructor | crates/snalloc/src/lib.rs:125-133 | a new slab is empty, with its cell size |
| Heap.TakeLink | crates/snalloc/src/lib.rs:158-160 | a link is read and cleared through the page table |
| Heap.SlabAllocator.Init | crates/snalloc/src/lib.rs:135-140 | the region is taken over unused; the asserted condition is about the old start |
| Heap.SlabAllocator.Alloc | crates/snalloc/src/lib.rs:150-170 | on the machine, the step `HeapOnPages.AllocRefines` and `HeapOnPages.AllocPanicsIff` are about |
| Heap.SlabAllocator.Dealloc | crates/snalloc/src/lib.rs:172-181 | on the machine, the step `HeapOnPages.DeallocRefines` is about |
| Heap.GlobalAllocator.constructor | crates/snalloc/src/lib.rs:43-60 | seven different slabs with cells of 16 to 2048 bytes and no region yet |
| Heap.GlobalAllocator.InitSlabs | crates/snalloc/src/lib.rs:67-71 | the loop gives the slabs consecutive eighths of the heap |
| Heap.GlobalAllocator.Init | crates/snalloc/src/lib.rs:62-75 | slabs and fallback heap have the regions of `Allocator.InitGood`, and what the fallback heap's own `init` stores goes through the page table; false exactly if that panics |
| Heap.GlobalAllocator.SlabFor | crates/snalloc/src/lib.rs:23-26 | the loop finds the slab of `Allocator.FirstFit`: its cells hold size and alignment, those of no earlier one do, and there is none exactly if one of the two exceeds 2048 |
| Heap.GlobalAllocator.StoreAll | crates/snalloc/src/lib.rs:87-106 | what the fallback heap stores goes through the page table byte by byte |
| Heap.GlobalAllocator.Alloc | crates/snalloc/src/lib.rs:83-93 | on the machine, one step of the runs `AllocatorOnPages.RunRefines` is about, panics included |
| Heap.GlobalAllocator.Dealloc | crates/snalloc/src/lib.rs:95-107 | likewise; a null pointer for the fallback heap changes nothing |
| Frames.TakeFirst | kernel/src/arch/x86_64/memory.rs:90-99 | allocating hands out the first available frame, in the order freed last, then by region; it fails exactly if there is none |
| Frames.NodeWritten | kernel/src/stack_allocator.rs:33-40 | a new list node reads back as written and overlaps no earlier one |
| Frames.GiveFront | kernel/src/arch/x86_64/memory.rs:82-86 | a frame given back is the next to be handed out; it panics exactly if the node array is full |
| Frames.StepFramesExact | kernel/src/arch/x86_64/memory.rs:64-73 | stepping through an aligned region yields its frames, each once |
| Frames.StepFramesInOrder | kernel/src/arch/x86_64/memory.rs:64-73 | in ascending order, from the first frame of the region to the last |
| Frames.UsableFramesExact | kernel/src/arch/x86_64/memory.rs:64-73 | the walk yields exactly the frames of the usable regions |
| Frames.UsableFramesDistinct | kernel/src/arch/x86_64/memory.rs:64-73 | with aligned, disjoint regions it yields none twice |
| Frames.RunConserves | kernel/src/arch/x86_64/memory.rs:82-99 | over every run, outstanding, freed and not yet walked frames together are the usable frames, each once; the node array has grown by one node per frame given back |
| Frames.NeverTwice | kernel/src/arch/x86_64/memory.rs:82-99 | after every run, the next frame is usable and not outstanding; there is none exactly if all usable frames are out |
| Frames.GivePanicsIff | kernel/src/stack_allocator.rs:33-57 | after every run, giving a frame back panics exactly if the frames given back so far have used up the node array |
| Frames.NodesAre | kernel/src/stack_allocator.rs:33-57 | over every run there is one list node per frame given back, each right after the one before, all inside the array: none overlaps another or is handed out twice |
| Frames.NodesAlignedIff | kernel/src/stack_allocator.rs:48-57 | once a frame has been given back, the nodes of the run are aligned for their pointers exactly if the address after the boxed iterator is, which is known at boot |
| FrameAllocator.StackAllocator.constructor | kernel/src/stack_allocator.rs:23-31 | an empty array of the given capacity |
| FrameAllocator.StackAllocator.Allocate | kernel/src/stack_allocator.rs:48-57 | the block and the offset of `Frames.Bump`, or an error and no change |
| FrameAllocator.BootInfoFrameAllocator.constructor | kernel/src/arch/x86_64/memory.rs:53-79 | the boxed iterator takes its bytes from the node array, the free list is empty and the walk has all usable frames before it |
| FrameAllocator.BootInfoFrameAllocator.Skip | kernel/src/arch/x86_64/memory.rs:64-73 | the walk goes on to a region that still has an address without dropping a frame |
| FrameAllocator.BootInfoFrameAllocator.NextFrame | kernel/src/arch/x86_64/memory.rs:64-73 | the region and cursor walk yields the head of what is left, and leaves the tail |
| FrameAllocator.BootInfoFrameAllocator.AllocateFrame | kernel/src/arch/x86_64/memory.rs:90-99 | the step `Frames.TakeFirst` is about |
| FrameAllocator.BootInfoFrameAllocator.DeallocateFrame | kernel/src/arch/x86_64/memory.rs:82-86 | the step `Frames.GiveFront` is about; false exactly if it panics |
| Paging.EnsureTablesKeeps | kernel/src/arch/x86_64/memory.rs:219-224 | frames that `map_to` takes for page tables stay apart from data frames and from each other, and no page moves |
| Paging.LazyMapKeeps | kernel/src/arch/x86_64/memory.rs:199-235 | a handled fault maps just that page, to a frame nothing else uses, and leaves every visible byte as it was |
| Paging.TouchRangeKeeps | kernel/src/arch/x86_64/memory.rs:199-235 | the faults an access takes change no byte and leave all of its pages mapped, however many it crosses, and no others are mapped |
| Paging.DoRefines | kernel/src/arch/x86_64/interrupts.rs:395-422 | an access of any length, across pages or not, that faults, maps and retries acts on memory as on a flat one |
| Paging.PagedRefinesFlat | kernel/src/arch/x86_64/memory.rs:199-235 | every run of reads and writes returns what the same run on flat memory returns, and leaves the same contents |
| Paging.TablesStayClean | kernel/src/arch/x86_64/memory.rs:199-235 | over every run of reads and writes, a frame that becomes a page table is zeroed first and no store ever reaches one |
| Paging.BootIsZero | kernel/src/arch/x86_64/memory.rs:199-235 | a machine booted with disjoint usable regions looks like flat memory of zeroes |
| Paging.FaultPanicsIff | kernel/src/arch/x86_64/memory.rs:217-224 | a fault in the managed range panics exactly if the frames left do not cover the page and the tables missing above it |
| Paging.FaultIff | kernel/src/arch/x86_64/memory.rs:199-235 | every fault: declined exactly outside 1000_0000_0000..7fff_ffff_f000 or if the page is there; a panic exactly if the frames left do not cover the page and its missing tables; otherwise the page gets the first frame, the next ones become tables and no other mapping changes |
| Mapping.FirstRun | kernel/src/arch/x86_64/memory.rs:107-136 | the leftmost run of enough free, non-null pages in the range, and none exactly if there is no such run |
| Mapping.SearchFree | kernel/src/arch/x86_64/memory.rs:107-129 | the single pass with its restarting counter finds that run |
| Mapping.MapRangePages | kernel/src/arch/x86_64/memory.rs:153-166 | the loop maps consecutive pages to consecutive frames, changes no other mapping, and meets no page already mapped |
| Mapping.MapPagesCorrect | kernel/src/arch/x86_64/memory.rs:138-172 | every byte of the object, and one past it, is reachable through the returned address; the pages added are exactly those these bytes lie on, and they are the leftmost run of that many free, non-null pages in the range; old mappings are unchanged |
| Mapping.MapRangeCost | kernel/src/arch/x86_64/memory.rs:153-166 | mapping a free run takes a frame for each table its pages lack, and fails exactly if there are too few |
| Mapping.MapPagesPanicsIff | kernel/src/arch/x86_64/memory.rs:138-172 | it panics exactly if there is no such run, or the frames left do not cover the tables missing for it |
| Mapping.MapRangeKeeps | kernel/src/arch/x86_64/memory.rs:138-172 | device mappings above the managed range leave every managed byte and the frame roles alone |
| Machine.Machine.TakeFrame | kernel/src/arch/x86_64/memory.rs:90-99 | the frame allocator, seen from the machine, pops one pool of frames |
| Machine.Machine.MapTo | kernel/src/arch/x86_64/memory.rs:219-224 | the walk down the levels makes the missing tables and then the mapping, or fails for want of a frame or because the page is mapped |
| Machine.Machine.LazyMap | kernel/src/arch/x86_64/memory.rs:199-235 | declines, panics or maps as `Paging.LazyMapKeeps` and `Paging.FaultPanicsIff` describe |
| Machine.Machine.TouchRange | kernel/src/arch/x86_64/interrupts.rs:395-422 | the page fault handler runs for each missing page of an access, lowest first |
| Machine.Machine.Read | kernel/src/arch/x86_64/interrupts.rs:395-422 | a load of any length does what `Paging.DoRefines` is about; it fails exactly on a fatal fault |
| Machine.Machine.Write | kernel/src/arch/x86_64/interrupts.rs:395-422 | so does a store |
| Machine.Machine.MapRun | kernel/src/arch/x86_64/memory.rs:153-166 | the loop does what `Mapping.MapRangePages` describes |
| Machine.Machine.MapPagesFrom | kernel/src/arch/x86_64/memory.rs:138-172 | search and loop together do what `Mapping.MapPagesCorrect` describes, and panic as `Mapping.MapPagesPanicsIff` says |
| FrameBudget.TouchSpends | kernel/src/arch/x86_64/memory.rs:217-224 | a fault takes one frame for the page and one for each table missing on its path |
| FrameBudget.DoBalances | kernel/src/arch/x86_64/memory.rs:199-235 | every frame that left the pool is a managed page or a table on the path to one: an access moves frames between these and loses none |
| FrameBudget.TouchSucceeds | kernel/src/arch/x86_64/memory.rs:217-224 | as long as accesses stay within a set of pages, frames for those pages and their tables are enough |
| FrameBudget.PagesCost | kernel/src/arch/x86_64/memory.rs:217-224 | and mapped pages have cost that many |
| FrameBudget.AccessPanicsIff | kernel/src/arch/x86_64/memory.rs:199-235 | an access of any length panics exactly if the frames left do not cover the pages of its range that are missing and the tables missing on their paths |
| FrameBudget.RunTablesIs | kernel/src/arch/x86_64/memory.rs:153-166 | the tables counted there and in `Mapping.MapPagesPanicsIff` are those on the path to one of the pages |
| FrameBudget.RunPagesIs | kernel/src/arch/x86_64/memory.rs:153-166 | and the pages are consecutive |
| FrameBudget.LedgerWired | kernel/src/arch/x86_64/memory.rs:219-224 | while the frames balance, the tables on the path to every managed page are there |
| HeapOnPages.CellFits | crates/snalloc/src/lib.rs:158-160 | every cell the allocator touches lies in the managed range |
| HeapOnPages.AllocPanicsIff | crates/snalloc/src/lib.rs:158-160 | an allocation panics exactly if the fault on the next cell is fatal; the store after the load never faults |
| HeapOnPages.AllocRefines | crates/snalloc/src/lib.rs:150-170 | an allocation on demand-paged memory is one on the flat memory behind it |
| HeapOnPages.DeallocRefines | crates/snalloc/src/lib.rs:172-181 | giving a cell back on demand-paged memory is giving it back on the flat memory behind it |
| HeapOnPages.RunRefines | crates/snalloc/src/lib.rs:150-181 | for one slab, from a booted machine, every run that does not exhaust physical memory is the run on flat zeroed memory, so a zero link is sound although nobody cleared the heap |
| AllocatorOnPages.StepRefines | crates/snalloc/src/lib.rs:82-108 | an allocation, release or client write of the whole allocator, on demand-paged memory, is that on the flat memory behind it and keeps every invariant |
| AllocatorOnPages.RunRefines | crates/snalloc/src/lib.rs:82-108 | every legal run of seven slabs, fallback heap and clients on demand-paged memory that leaves the fallback heap's free list alone and does not exhaust physical memory is, step for step, such a run on flat memory |
| KernelHeap.BootPanicsIff | kernel/src/allocator.rs:3-11 | setting the heap up panics exactly with fewer than four usable frames, those for the page on which the fallback heap stores its first hole; otherwise the heap is in order |
| KernelHeap.SafeOnPages | kernel/src/allocator.rs:3-11 | the kernel's heap on the kernel's machine keeps what `Allocator.KernelSafe` promises, over every run that does not panic; with fewer than 3765450784 usable frames no client ever writes into the fallback heap's free list and live allocations are always disjoint |
| KernelHeap.RunLedger | kernel/src/arch/x86_64/memory.rs:199-235 | over every run of the kernel's heap that leaves the fallback heap's free list alone, the usable frames are the pool, the managed pages and the tables above those, each counted once |
| KernelHeap.LastCellCosts | crates/snalloc/src/lib.rs:154-165 | once the last cell of the last slab is out, every page of that slab has been mapped, besides the first of the fallback heap |
| KernelHeap.OverlapIff | kernel/src/allocator.rs:3-11 | on a machine with given usable regions, two live allocations of the kernel's heap can come to overlap, and a client can come to write into the fallback heap's free list, exactly if there are at least 3765450784 usable frames |
| KernelHeap.MisalignIff | kernel/src/allocator.rs:3-11 | and an allocation can come out misaligned exactly if there are at least eight |
| Wake.RunKeeps | kernel/src/drivers/i8042.rs:38-104 | the protocol invariant over every interleaving of handler and consumer |
| Wake.NoLostWakeUp | kernel/src/drivers/i8042.rs:38-104 | after every interleaving, a parked consumer with something to read has been woken or has a handler between its push and its wake; with neither, the queue is empty |
| Wake.InOrder | kernel/src/drivers/i8042.rs:83-104 | over every interleaving, the items the consumer's calls returned are a gapless prefix, in order, of the items the queue accepted, and the rest is still queued or in the consumer's hand |
| Wake.NoneIff | kernel/src/drivers/i8042.rs:83-86 | a call returns None exactly when it looks before the queue has been initialised |
| Wake.DroppedIff | kernel/src/drivers/i8042.rs:41-46 | an item is dropped exactly if the queue has not been initialised or 32 accepted items have still to be taken out |
| Wake.ParkedIsServed | kernel/src/drivers/i8042.rs:83-104 | from every reachable state with a parked consumer and a non-empty queue, the poll that is owed returns the oldest item |
| Wake.WakerIff | kernel/src/drivers/i8042.rs:91-98 | a waker is in the cell exactly if it was registered and neither a handler nor its owner has taken it out since |
| Wake.WokenIff | kernel/src/drivers/i8042.rs:41-46 | a poll is owed exactly if a handler found the waker and the consumer has not been polled since |
| Nvme.StaleLooksStale | kernel/src/drivers/nvme.rs:223-226 | until the answer is posted, the slot the host watches shows the wrong phase, on the first lap and on later ones |
| Nvme.RunKeeps | kernel/src/drivers/nvme.rs:215-240 | over every run, errors or not: every index, phase bit and slot is determined by the counts of commands, or the host is stuck at the first completion that reported an error |
| Nvme.PhaseCorrect | kernel/src/drivers/nvme.rs:201-240 | for any ring of two or more slots, any number of laps and whatever the completions report, the k-th `submit` returns the completion of the k-th command up to the first that reports an error, and that one for ever after; index and phase are the count of good ones modulo the size and the parity of the laps |
| Nvme.RunRing | kernel/src/drivers/nvme.rs:215-222 | over every run, errors or not, the k-th command has the body of the k-th `submit` and k, modulo 65536, for its identifier, and the submission ring holds the latest commands |
| Nvme.FetchIs | kernel/src/drivers/nvme.rs:215-222 | while no more commands are outstanding than the ring has slots, the controller finds the oldest of them, as it was submitted |
| Nvme.FetchedInOrder | kernel/src/drivers/nvme.rs:215-222 | as long as no `submit` has returned an error, the k-th command the controller fetches is the k-th submitted, body and identifier |
| Nvme.SubmitReturns | kernel/src/drivers/nvme.rs:215-240 | over every run, the k-th `submit` returns the status and result the controller posted for the k-th command, up to the first error, and those of that one from then on |
| Nvme.JamKeeps | kernel/src/drivers/nvme.rs:228-232 | once an error was returned, no step of host or controller moves the host's index or overwrites that entry |
| Nvme.AllOwnIff | kernel/src/drivers/nvme.rs:228-240 | every `submit` of a run returned its own completion exactly if none but the last reported an error |
| Nvme.NeverStuck | kernel/src/drivers/nvme.rs:223-232 | in every run a waiting host's next look succeeds, or the controller is free to answer; after an error it succeeds at once, answered or not |
| Nvme.QueuePair.constructor | kernel/src/drivers/nvme.rs:201-213 | zeroed rings, index zero, phase one |
| Nvme.QueuePair.Issue | kernel/src/drivers/nvme.rs:215-222 | the host's fields, its ring and its doorbell are those of the submit step; the next slot holds the body with the next identifier |
| Nvme.QueuePair.Spin | kernel/src/drivers/nvme.rs:223-240 | one look at the completion slot: the check step, and what it returns |
| E1000.RunKeeps | kernel/src/drivers/e1000.rs:513-545 | the ring invariant over every interleaving of write-backs and host calls |
| E1000.RingCorrect | kernel/src/drivers/e1000.rs:385-409 | the tail stays one behind the host, DD is set exactly from the host's descriptor up to the head, the assertion holds whenever a token is out, and what was consumed is an in-order prefix of what was written |
| E1000.ConsumedInOrder | kernel/src/drivers/e1000.rs:513-545 | over every run, the packets of the tokens the host has ended are a gapless prefix, in order, of those the NIC wrote back, fewer than 32 behind |
| E1000.RecvOldest | kernel/src/drivers/e1000.rs:513-528 | the next `recv` yields the oldest packet not consumed, and nothing exactly if there is none |
| E1000.SecondTokenIff | kernel/src/drivers/e1000.rs:513-545 | of two tokens for one packet, after the first has been ended and whatever host and NIC did since, ending the second passes the assertion exactly if a later packet is waiting in the same descriptor |
| E1000.SecondTokenBreaks | kernel/src/drivers/e1000.rs:535-545 | where it passes, the ring stays in order exactly if that descriptor is the one the host looks at, no other token is out and the lost packet equals the old one |
| E1000.SecondTokenCanPass | kernel/src/drivers/e1000.rs:535-545 | a run in which it passes and the ring goes wrong: one lap after the only packet in the ring |
| E1000.Receiver.constructor | kernel/src/drivers/e1000.rs:385-409 | the set-up gives the NIC every descriptor but one |
| E1000.Receiver.HasRecv | kernel/src/drivers/e1000.rs:530-533 | true exactly if a packet has been written that the host has not consumed |
| E1000.Receiver.Recv | kernel/src/drivers/e1000.rs:513-528 | the token of the receive step |
| E1000.Receiver.RecvEnd | kernel/src/drivers/e1000.rs:535-545 | the step that gives the descriptor back; false exactly if the assertion fails |
| Mouse.FeedIsParse | crates/i8042/src/mouse.rs:53-92 | on every stream, the byte-at-a-time machine is the reading "skip a byte with bit 3 clear, else take three", state, pending bytes and events alike |
| Mouse.GetSigned9 | crates/i8042/src/mouse.rs:94-106 | the byte, less 256 if the sign is set; on overflow 256 or -256 |
| Mouse.PacketMeans | crates/i8042/src/mouse.rs:69-90 | what three bytes do, bit by bit: the buttons are bits 0, 1 and 2 of the first; x moves by the nine-bit value of the second, y by minus that of the third, each clamped to 0..65535; an event exactly if the state is new |
| Mouse.StreamMeans | crates/i8042/src/mouse.rs:53-106 | on every stream: where no edge is hit, x is the start plus all movements and y the start minus them; the buttons are those of the last packet |
| Mouse.NewMouseReadsPackets | crates/i8042/src/mouse.rs:37-57 | a new mouse swallows one byte, whatever it is, and reads packets from then on |
| Mouse.MoveAllInRange | crates/i8042/src/mouse.rs:70-106 | coordinates never leave the 16-bit range, and n packets move each by at most 256 n |
| Mouse.ChangesAreChanges | crates/i8042/src/mouse.rs:78-90 | each event differs from the one before, and the last is where the packets lead |
| Mouse.MousePort.constructor | crates/i8042/src/mouse.rs:37-51 | a new mouse waits for its acknowledgement at the origin |
| Mouse.MousePort.HandleData | crates/i8042/src/mouse.rs:53-92 | one byte of the machine `Mouse.PacketMeans` and `Mouse.StreamMeans` are about |
| Ps2Port.FeedSends | crates/i8042/src/lib.rs:315-399 | at every point of every stream, what the port has sent so far is what its state calls for |
| Ps2Port.FeedSettles | crates/i8042/src/lib.rs:315-389 | an unknown device stays unknown, a keyboard a keyboard, a mouse a mouse |
| Ps2Port.KeysMeanNormal | crates/i8042/src/keyboard.rs:94-154 | a keyboard that has reported a key is up and stays up with the same scancode set |
| Ps2Port.EnumerationSafe | crates/i8042/src/lib.rs:315-399 | on every stream: the commands are a prefix of one of two scripts, keys and mouse states are never both reported, and keys only after F4 was acknowledged with scancode set 1 or 2 |
| Ps2Port.KeyboardUpIff | crates/i8042/src/keyboard.rs:76-154 | a keyboard comes up on exactly the streams a description of the handshake picks out, and then reports exactly the decoder's keys for the bytes that follow other than 00, AA, EE, FA and those from FC on |
| Ps2Port.MouseUpIff | crates/i8042/src/lib.rs:330-399 | likewise for a mouse |
| Ps2Port.IdentityDecides | crates/i8042/src/lib.rs:350-372 | what the identity bytes make of a port: 00, 03 or 04 a mouse, AB 83 a keyboard, AB and one of nine others a keyboard that stays disabled, anything else unknown |
| Ps2Controller.PortsIsolated | crates/i8042/src/lib.rs:194-218 | for every interleaving of the two interrupts, each port ends up, replies and reports as the bytes offered to it alone (status bit 0, or bit 5) would have made it; replies to port 2 alone follow command D4 |
| Ps2Driver.PolledIsQuiet | crates/i8042/src/lib.rs:220-250 | polling the status changes neither what has been written nor what has been answered, and keeps the discipline |
| Ps2Driver.BitOfFromBits | crates/i8042/src/lib.rs:167-172 | a configuration byte put together from bits has those bits |
| Ps2Driver.DrainedStable | crates/i8042/src/lib.rs:269-274 | `flush` ends exactly if some number of rounds is enough, and then always alike, however many more it is given |
| Ps2Driver.Driver8042.constructor | crates/i8042/src/lib.rs:101-107 | no ports and no traffic |
| Ps2Driver.Driver8042.WaitOut | crates/i8042/src/lib.rs:228-238 | at most 1000 polls, stopping at the first that shows room, failing only after all of them |
| Ps2Driver.Driver8042.WaitIn | crates/i8042/src/lib.rs:240-250 | at most 100000 polls, stopping at the first that shows data, failing only after all of them |
| Ps2Driver.Driver8042.Command | crates/i8042/src/lib.rs:252-256 | a command goes out only right after a status that shows room, and is given up only after 1000 that do not |
| Ps2Driver.Driver8042.Data | crates/i8042/src/lib.rs:258-262 | so does a data byte |
| Ps2Driver.Driver8042.Answer | crates/i8042/src/lib.rs:264-267 | a data byte is read only right after a status that shows one, and given up only after 100000 that do not |
| Ps2Driver.Driver8042.Flush | crates/i8042/src/lib.rs:269-274 | flushing writes nothing, is answered nothing, and leaves exactly what the hardware's running dry leaves; it is given up exactly if the hardware does not within the rounds |
| Ps2Driver.Driver8042.ProbeSecond | crates/i8042/src/lib.rs:137-143 | the second port is enabled, the configuration read back, and the port disabled again |
| Ps2Driver.Driver8042.TestPorts | crates/i8042/src/lib.rs:137-159 | the probe if the configuration allows a second port, then the interface tests of the ports there are |
| Ps2Driver.Driver8042.SelfTest | crates/i8042/src/lib.rs:115-135 | from disabling the controller to a self-test that answered 55 |
| Ps2Driver.Driver8042.Enable | crates/i8042/src/lib.rs:165-174 | the configuration is written back with the interrupts of exactly the working ports added |
| Ps2Driver.Driver8042.Start1 | crates/i8042/src/lib.rs:176-180 | port 1 is there, waiting, and its device was told to reset |
| Ps2Driver.Driver8042.Start2 | crates/i8042/src/lib.rs:181-186 | port 2 likewise, through command D4 |
| Ps2Driver.Driver8042.Init | crates/i8042/src/lib.rs:114-189 | whatever the hardware does, every access follows the right status read; on success the traffic is the script the answers call for, the ports present are those whose test returned 0, and there is one; no ports only if no test returned 0; a time-out only after a full wait; a failed self-test only so or by an answer other than 55 |
| Ps2Chip.ScriptWorks | crates/i8042/src/lib.rs:114-189 | on a controller that reports its configuration truthfully, the driver finds a second port exactly if there is one; the script leaves exactly the working ports switched on with their interrupts, no translation, and one reset sent to each of their devices and to no other |
| Ps2Driver.Driver8042.Interrupt | crates/i8042/src/lib.rs:194-218 | the step `Ps2Controller.PortsIsolated` is about, with the registers the hardware shows |
| Pci.CallsAre | kernel/src/arch/x86_64/pci.rs:102-115 | the nested loops visit function 0 of every device there is, and the other seven of every device that says it has several |
| Pci.TooShallowIff | kernel/src/arch/x86_64/pci.rs:102-198 | a bound on the nesting is too small exactly if some path of bridges is longer |
| Pci.TerminatesIff | kernel/src/arch/x86_64/pci.rs:102-198 | the mutual recursion ends exactly if no path of bridges returns to a bus it has been on, and then nests at most 256 deep |
| Pci.UpwardHasNoCycle | kernel/src/arch/x86_64/pci.rs:188-195 | bridges whose secondary bus is above their own make no cycle |
| Pci.BusFinds | kernel/src/arch/x86_64/pci.rs:102-198 | scanning a bus adds exactly the endpoints reachable from it and keeps all others |
| Pci.ReachedStep | kernel/src/arch/x86_64/pci.rs:117-198 | what is reachable from a bus is what is found at, or through a bridge at, a function on it |
| Pci.ResolveDeepEnough | kernel/src/arch/x86_64/pci.rs:62-100 | the whole scan ends within a bound exactly if no root bus has a longer path |
| Pci.ResolveEndsIff | kernel/src/arch/x86_64/pci.rs:62-198 | the whole scan ends exactly if no root bus of any segment can reach a cycle of bridges |
| Pci.ResolveExact | kernel/src/arch/x86_64/pci.rs:62-198 | without reachable cycles the scan ends and its keys are exactly the endpoints on buses reachable from the roots (bus 0, and buses 1 to 7 if the host bridge is there and has several functions), each with its own data, however often buses are scanned again |
| PciResolver.Resolver.constructor | kernel/src/arch/x86_64/pci.rs:207-212 | nothing found yet |
| PciResolver.Resolver.ScanFunction | kernel/src/arch/x86_64/pci.rs:117-198 | the device map after one function, as in the lemmas above |
| PciResolver.Resolver.ScanBus | kernel/src/arch/x86_64/pci.rs:102-115 | after one bus |
| PciResolver.Resolver.ScanSegment | kernel/src/arch/x86_64/pci.rs:89-100 | after the root buses of one segment |
| PciResolver.Resolver.Run | kernel/src/arch/x86_64/pci.rs:62-75 | after all segments |
| Codec.RunsSpell | kernel/build.rs:20-33 | the runs, written out, are the pixels |
| Codec.RunsProper | kernel/build.rs:20-33 | no run is empty and neighbours differ |
| Codec.EncodeImage | kernel/build.rs:15-35 | the loop writes the header and all maximal runs but the last, and stops exactly if a run is longer than 65535 |
| Codec.ReadRun | kernel/src/framebuffer.rs:268-281 | the inner loop makes the calls of one run, moves the cursor, and tells whether the bottom was reached |
| Codec.ReadImage | kernel/src/framebuffer.rs:255-286 | the outer loop decodes run by run until then, and fails exactly if the bytes run out |
| Codec.DrawRunsIs | kernel/src/framebuffer.rs:261-282 | decoding runs draws their pixels up to the bottom, and runs out of bytes exactly if they do not reach it |
| Codec.RoundTrip | kernel/src/framebuffer.rs:255-286 | for every image: decoding what the encoder wrote fails exactly if the image is empty, its last run is longer than a row, or it is a single row of one run; otherwise it draws the first height - 1 rows (of a single row, one pixel), each pixel at its place, in order |
| Display.ScrollMoves | kernel/src/framebuffer.rs:133-150 | whatever the size of the framebuffer, everything moves up one text line as far as there is something to move, and the rest is cleared, except its first byte |
| Display.ScrollRows | kernel/src/framebuffer.rs:133-150 | pixel by pixel: what was 18 rows further down is shown, and the last 18 rows are zero except their first byte |
| Display.CleanScrollIff | kernel/src/framebuffer.rs:133-150 | with at least as many rows as the screen, the result is a clean scroll exactly if the byte left there is zero |
| Display.ApplyAlike | kernel/src/framebuffer.rs:124-286 | one operation fails alike, or shows the same bytes, with and without a faithful cache, which stays faithful |
| Display.CacheTransparent | kernel/src/framebuffer.rs:124-286 | so does every sequence of clear, pixel, character, image and scroll operations |
| Display.LateInitTransparent | kernel/src/framebuffer.rs:63-66 | in particular from the moment the cache is taken |
| Painting.PixelIs | kernel/src/framebuffer.rs:152-208 | a pixel changes its own bytes and no other: red, green and blue in the order of the format, or the luminance, mixed with what was there if it is translucent; the spare byte is cleared |
| Painting.DrawPanicsIff | kernel/src/framebuffer.rs:152-208 | drawing pixels that are on the screen panics exactly if one of them cannot be painted |
| Painting.DrawShows | kernel/src/framebuffer.rs:152-208 | pixels drawn to different places each paint over what was there at the start, and no other byte changes |
| Logo.LogoShows | kernel/src/framebuffer.rs:255-286 | from the picture to the screen: what the build script encodes is drawn exactly if the decoder reaches the bottom and every pixel shown can be painted; then each of them has painted its own bytes of the framebuffer, and nothing else has changed |
| Logo.ClearedLogoShows | kernel/src/framebuffer.rs:124-131 | drawn on a cleared screen, the picture is all there is: every byte that is not one of its pixels is zero |
| Display.PixelSafe | kernel/src/framebuffer.rs:152-208 | a pixel on the screen, opaque or not, is written inside the buffer; it panics exactly if it has to be blended and there are too few bytes to blend with |
| Display.BackspaceSafe | kernel/src/framebuffer.rs:214-223 | backspace never takes the cursor below the border and blanks only what is on screen |
| Display.TypingSafe | kernel/src/framebuffer.rs:110-253 | on every stream of characters of one width the cursor stays on a glyph boundary inside the screen with a line to spare below it, and nothing is written outside the buffer |
| TypedText.TypedCursor | kernel/src/framebuffer.rs:110-247 | where every stream of such characters leaves the cursor: a glyph one width on, or one width into the next line; a newline 18 rows down, or on the last line where it is; backspace one width back, not past the border |
| TypedText.NewLineShows | kernel/src/framebuffer.rs:110-122 | a new line changes no byte, or scrolls once, on the last line |
| TypedText.GlyphShows | kernel/src/framebuffer.rs:224-245 | a glyph shows every pixel of its raster where the cursor was, or at the start of the next line, and changes no other byte |
| TypedText.BackspaceShows | kernel/src/framebuffer.rs:214-223 | backspace blanks 18 rows of the last width before the cursor and changes no other byte; at the border it does nothing |
| DisplayDevice.Console.TakeCache | kernel/src/framebuffer.rs:63-66 | the cache is a copy of the framebuffer |
| DisplayDevice.Console.Clear | kernel/src/framebuffer.rs:124-131 | buffer and cache are zero and the cursor is home |
| DisplayDevice.Console.Scroll | kernel/src/framebuffer.rs:133-150 | in place, the scroll `Display.ScrollMoves` is about, panicking exactly when it does |
| DisplayDevice.Console.WritePixel | kernel/src/framebuffer.rs:152-208 | in place, the pixel operation of `Display.CacheTransparent` |
| DisplayDevice.Console.NewLine | kernel/src/framebuffer.rs:110-122 | in place, a new line, scrolling if the last line was reached |
| DisplayDevice.Console.Erase | kernel/src/framebuffer.rs:214-223 | in place, the backspace of `Display.BackspaceSafe` |
| DisplayDevice.Console.Print | kernel/src/framebuffer.rs:224-245 | in place, a glyph, on the next line if there is no room |
| DisplayDevice.Console.WriteChar | kernel/src/framebuffer.rs:210-247 | in place, the character operation of `Display.TypingSafe` |
| DisplayDevice.Console.WriteRgba | kernel/src/framebuffer.rs:255-286 | in place, the image operation of `Display.CacheTransparent` |

## Left out

- ACPI, GDT, IDT, APIC, PIT, HPET, CMOS and MSR code: register access without an invariant of its own.
- Interrupt vector tables and MSI set-up.
- The e1000 transmit path: it has no check for a full ring, so there is no ring invariant to prove.
- NVMe admin queues, controller identification and the address arithmetic of doorbells; only the queue pair is modelled.
- The network stack, virtio, the shell, panic and unwinding, and the executor: wrappers over other libraries.
- The insides of the linked-list allocator, the scancode decoder, the lock-free queue, the atomic waker and the page-table mapper: each is its contract (any free block; any function of the bytes so far; atomic push and pop; one registered waker; a map from pages to frames plus one frame per missing table).
- The bytes of page tables: a new table is zeroed physical memory, and the entries are kept in a map.
- Several cores faulting on the same page, and the flush of other cores' translations: accesses are those of one core.
- Blending and luminance, which use floating point, are arbitrary functions of their inputs.
- Statistics, address translation helpers, `draw_iter`, and the fields of a PCI device other than its address, which are one opaque value.
- The wake-up protocol is a step system without an object of its own: its point is the interleaving, not the update.
- The nested loops over a glyph are the list of pixel calls they make, drawn by one loop.
- Heap.GlobalAllocator.Dealloc: asks for a live pointer with the layout it was allocated with, as the language's contract for allocators does, or for a null one that the fallback heap would be given.
- Ps2Driver.Driver8042.Flush: takes a bound on its rounds, since with hardware that never runs dry the loop would not end; running into the bound is its own outcome, and by Ps2Driver.DrainedStable a larger bound changes no other.
- Ps2Driver.Driver8042.Init: passes that bound on.
- KernelHeap.OverlapIff: counts the frames of the heap's own pages and tables; device mappings and page tables that were there at boot are not part of these runs.
- Allocator.InitDisjointIff: heaps so small that an eighth does not hold one 2048-byte cell are not covered.
- The fallback heap's library is not part of this model: its set-up is taken to store a header of up to 16 bytes (the size of a hole and the pointer to the next) at the start of its region, and it keeps its contract as long as no client has written into its region outside its blocks.
- Logo.LogoShows: asks for a picture that fits inside the border of the screen.
- Display.TypingSafe: assumes glyphs of one width, as the font has.
- TypedText.TypedCursor: so does this.
- Ps2Chip.ScriptWorks: the controller is taken to keep its configuration through the self-test.
- FrameBudget.AccessPanicsIff: asks that the tables on the paths to the managed pages there are exist, as they do in every run (FrameBudget.LedgerWired).
- Allocator.HeldBytesKept: speaks of runs that leave the fallback heap's free list alone.
