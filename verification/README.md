# HaematiteOS kernel memory and its smaller cores, in Dafny

This project models the memory managers of the HaematiteOS kernel and four smaller pieces of its code, and proves what
they keep over every call and every run.

* **The physical memory manager** (`kernel/mem/physical.c`). `PhysSpec` describes usable RAM as a list of blocks (header,
  payload, gap) in address order and `phys_alloc`/`phys_free` as steps on that list; `Tiled` is the invariant. `PhysTheorems`
  proves what runs of those steps keep. `PhysMem` is the code: a class whose headers are linked by address and relinked in
  place, each method proved to do its step. `BootTheorems` says what `prep_mem` leaves behind.
* **The slab heap** (`kernel/mem/heap.c`). `HeapSpec` describes caches, slabs, free chains and idle lists as sequences;
  `HeapInvariants` and `HeapTheorems` prove that every step and every in-domain run keeps the invariant; `HeapSafety` and
  `HeapEffects` draw the conclusions for callers and say what each call takes and gives back. `HeapRep`,
  `HeapRepSteps` and `HeapMem` are the code: a class of records, pointers and threaded free chains whose `Malloc` and `Free`
  are proved to be the steps. `FreeLimits` shows where `free` goes wrong.
* **Both together** (`KernelMemory`): the heap's arena is one physical block, and `free` has to tell from an address alone
  which of the two managers issued it.
* **Smaller cores**: `BlockMoves` (`memcpy`, `memset`), `Itoa`, `PciSpec`, `PciTheorems`, `PciReturns`, `PciTopology` and
  `PciMem` (bus enumeration), and `Drawing`, `TargaSpec`, `TargaTheorems`, `TargaPackets`, `TargaFiles`, `TargaMem` (the TGA
  decoders of `put_targa`).
* `Machine`, `Lists` and `Chains` hold what several of these share: 64-bit arithmetic, lists without repeats, and what it
  means for a chain of `next` fields to spell a list.

Pointers are numbers here, because the kernel computes them. Memory reached through a pointer type is a field holding a map
from addresses to records (`hdr`, `cacheAt`, `slabAt`) or to words (`word`), which the methods reassign as the code writes
through its pointers. A panic is a result the caller sees (`ok == false`, a null kernel) where it depends on the input, and a
branch proved unreachable where it would report a corrupted header.

## What the code does not promise

Five places where the code falls short of what its comments or its interface suggest are stated as theorems, each with the
exact condition and an input that fails.

* `free` handles a live object exactly when its slab still has its first free chain, or is full and last on its cache's full
  list (`FreeLimits.InDomainExact`). Two `malloc(4096)` in a row are enough to make the first pointer one that must not be
  freed (`FreeLimits.TwoWholeSlabsFromEmpty`).
* `prep_mem` reserves 48 bytes less than `kernel_size`, header included. Some run of `phys_alloc` and `phys_free` leaves an
  object on the kernel's bytes if and only if the gap behind the kernel block holds at least 64
  (`BootTheorems.KernelOverwrittenIff`, whose run asks for 16 bytes again and again). The boot loader adds 96 to the size it
  passes, so the kernel image itself is covered. The panic text of `prep_mem` speaks of 64 bytes where the condition is 96;
  the model follows the condition.
* The run-length decoder draws a bottom-left image one row lower than the plain decoder: both draw the same on every screen
  if and only if the origin is top-left (`TargaPackets.SameDrawingIff`). The plain decoder's 32-bit offsets read every pixel
  where it is stored if and only if the last offset fits (`TargaPackets.OffsetsExactIff`); a file of 65535 by 65535 pixels of
  four bytes shows a wrong colour (`TargaPackets.HugeMisread`), one-byte indices never do.
* Enumeration of a PCI bus returns if and only if no route through bridges from it meets a bus twice
  (`PciReturns.ReturnsIff`); a bridge that leads back to its own bus is enough (`PciReturns.SelfLoopReturnsIff`).
* `memcpy` copies if and only if the destination does not lie inside the source behind its start, or the count is 16
  (`BlockMoves.CopyIff`).

## Model

| member | source | states |
|---|---|---|
| PhysSpec.CarveTilesIff | kernel/mem/physical.c:84-97 | cutting a block from a gap keeps header, payload and gap tiling every region if and only if the cut holds a header and fits the gap, which the code does not check |
| PhysSpec.MergeTiles | kernel/mem/physical.c:122-130 | giving a block back to its predecessor's gap keeps the tiling |
| PhysSpec.TiledAscends | kernel/mem/physical.c:84-97 | tiling implies that the list is strictly ascending by address |
| PhysSpec.EndsWithinLimit | kernel/mem/physical.c:169 | no block reaches past the end of the memory-map entry its region head was made for |
| PhysSpec.NeedCoversIff | kernel/mem/physical.c:102-106 | the rounded size covers header and request exactly for requests up to 2^64 - 64, and then wastes less than 16 bytes |
| PhysSpec.NeedIsLeast | kernel/mem/physical.c:102-106 | what lies behind the header is the smallest multiple of 16 that is at least 16 and the request; below 16 that makes 64 bytes in all |
| PhysSpec.LargestRequestWraps | kernel/mem/physical.c:102-106 | a concrete request beyond that bound: the largest u64 is taken for a bare header |
| PhysSpec.BestFitUpto | kernel/mem/physical.c:104-115 | the scan's choice fits, is smallest among those that fit and lowest among equals, and is missing only if nothing fits |
| PhysSpec.AllocTiles | kernel/mem/physical.c:99-120 | every allocation keeps the tiling |
| PhysSpec.FreeTiles | kernel/mem/physical.c:122-130 | a live pointer is never the first block's, and freeing it keeps the tiling |
| PhysSpec.Run | kernel/mem/physical.c:99-130 | after any legal run of allocations and frees the list still tiles every region |
| PhysTheorems.ListDeterminedByOccupied | kernel/mem/physical.c:84-97 | two tiled lists with the same headers and payloads are equal, gaps included: coalescing leaves no history behind |
| PhysTheorems.AllocAddsOne | kernel/mem/physical.c:99-120 | a successful allocation adds exactly one block of at least the requested size and moves no other |
| PhysTheorems.FreeRemovesOne | kernel/mem/physical.c:122-130 | a free removes exactly the block given |
| PhysTheorems.LiveIff | kernel/mem/physical.c:118-123 | a pointer is live exactly when it is the payload of a live object |
| PhysTheorems.AllocLiveExactly | kernel/mem/physical.c:99-120 | an allocation makes its result live, which was not live before, and changes no other pointer's status |
| PhysTheorems.FreeLiveExactly | kernel/mem/physical.c:122-130 | a free makes its pointer dead and changes no other pointer's status |
| PhysTheorems.FreesCommute | kernel/mem/physical.c:122-130 | freeing two live pointers leaves the same list in either order |
| PhysTheorems.FreeUndoesAlloc | kernel/mem/physical.c:84-130 | freeing straight after allocating restores the list exactly |
| PhysTheorems.RunKeepsPinned | kernel/mem/physical.c:99-130 | no run moves, resizes or removes a region head or the kernel block |
| PhysTheorems.RunsMeet | kernel/mem/physical.c:99-130 | two runs that leave the same live objects leave the same list, whatever happened in between |
| PhysTheorems.FreeingAllRestores | kernel/mem/physical.c:99-130 | once everything is freed, in any order, the list is the one `prep_mem` left |
| PhysTheorems.BlocksDisjoint | kernel/mem/physical.c:84-97 | the spans of two blocks never meet, and each lies inside its region |
| PhysTheorems.FreeByteIffInGap | kernel/mem/physical.c:84-97 | a byte of a region lies outside every header and payload exactly when it lies in some block's gap |
| PhysTheorems.FreeRunInOneGap | kernel/mem/physical.c:122-130 | a run of free bytes always lies in a single gap |
| PhysTheorems.AllocFailsIffNoRun | kernel/mem/physical.c:99-120 | `phys_alloc` returns 0 exactly when no region holds a run of free bytes as long as the rounded request plus a header |
| PhysTheorems.AllocIsBestFit | kernel/mem/physical.c:104-118 | the block is put at the start of the lowest among the smallest gaps that fit |
| PhysTheorems.RunKeepsAligned | kernel/mem/physical.c:103 | after any run payloads are 16-aligned, except in the kernel's region, where all are off by `kernel_size` mod 16 |
| PhysTheorems.StepMovesBytes | kernel/mem/physical.c:84-130 | an allocation takes exactly the rounded request plus header from the gaps, and a free gives exactly the block back |
| PhysTheorems.RunConservesBytes | kernel/mem/physical.c:84-130 | after any run gaps and occupied bytes add up to the usable memory |
| PhysMem.RegionClear | kernel/mem/physical.c:141-170 | the region of a further usable entry lies wholly before or wholly after each region already listed |
| PhysMem.InsertRegion | kernel/mem/physical.c:152-164 | inserting a head between its neighbours by address keeps the list the sorted list of exactly the entries seen |
| PhysMem.CarveLinks | kernel/mem/physical.c:84-97 | the field writes of `_make_new_block` spell the cut list, every non-head's `prev` true and the last pointer right |
| PhysMem.MergeLinks | kernel/mem/physical.c:122-130 | the field writes of `phys_free` spell the merged list, every non-head's `prev` true and the last pointer right |
| PhysMem.InsertLinks | kernel/mem/physical.c:147-169 | the field writes of one turn of `prep_mem` spell the longer list, although later heads keep stale `prev` fields |
| PhysMem.PhysicalMemory.MakeNewBlock | kernel/mem/physical.c:84-97 | the new list is the cut one, and the new header is where the gap began |
| PhysMem.PhysicalMemory.AddRegion | kernel/mem/physical.c:143-170 | one turn of the loop makes the list the sorted list of one entry more |
| PhysMem.PhysicalMemory.PrepMem | kernel/mem/physical.c:132-181 | for disjoint usable entries in any order the heads are the sorted list of exactly the qualifying ones; it succeeds exactly when the kernel lies 96 bytes behind a head, and then has cut the kernel block there |
| PhysMem.PhysicalMemory.SelectBlock | kernel/mem/physical.c:104-116 | the scan over the linked headers selects the best fit of the specification |
| PhysMem.PhysicalMemory.Alloc | kernel/mem/physical.c:99-120 | result and new list are those of the specified step; no header it visits fails its signature check |
| PhysMem.PhysicalMemory.Free | kernel/mem/physical.c:122-130 | the new list is that of the specified step; the header's signatures are intact |
| BootTheorems.EntryOrderIrrelevant | kernel/mem/physical.c:139-172 | the order of the memory-map entries does not matter |
| BootTheorems.HeadsExactly | kernel/mem/physical.c:143-169 | there is a head exactly at the first multiple of 16 of each entry of type 1 from the first megabyte on that has more than 48 bytes left there; its gap reaches the entry's end |
| BootTheorems.BootedIsInitial | kernel/mem/physical.c:141-178 | `prep_mem` leaves no live object and the alignment every run then keeps |
| BootTheorems.KernelNeverOverwritten | kernel/mem/physical.c:173-178 | through every run of `phys_alloc` and `phys_free` no header or payload of an object touches the bytes reserved for the kernel |
| BootTheorems.KernelTailNotReserved | kernel/mem/physical.c:86 | the last 48 bytes of `kernel_size` are not reserved: where the region has them, they start the gap behind the kernel block |
| BootTheorems.KernelOverwrittenIff | kernel/mem/physical.c:84-178 | some run leaves an object on the `kernel_size` bytes from the kernel's start if and only if the gap behind the kernel block has at least 64 bytes |
| BootTheorems.FillsGap | kernel/mem/physical.c:99-120 | asking for 16 bytes again and again puts an object at the start of any given gap of at least 64 bytes |
| HeapSpec.RecordsApart | kernel/mem/heap.c:52-54 | two records carved from the arena share no byte |
| HeapSpec.SlotsApart | kernel/mem/heap.c:79-86 | two slots, of one slab or of two, share no byte |
| HeapSpec.InsertPos | kernel/mem/heap.c:141-143 | the walk's position: no slot before it, the first aside, lies above the freed one, and the slot at it does |
| HeapInvariants.AddCacheSound | kernel/mem/heap.c:44-62 | a new cache keeps all books: arena, record lists, one cache per size |
| HeapInvariants.AddSlabSound | kernel/mem/heap.c:64-88 | a new slab keeps all books, and its record was not in use |
| HeapInvariants.PopSound | kernel/mem/heap.c:106-122 | taking a free slot keeps all books, and its address was not live |
| HeapInvariants.InsertedKeepsChain | kernel/mem/heap.c:141-145 | insertion keeps the chain free of repeats and strictly ascending after its first element, and adds exactly the freed slot |
| HeapInvariants.PushPristineSound | kernel/mem/heap.c:140-146 | giving a slot back to a never-filled slab keeps all books |
| HeapInvariants.PushFullSound | kernel/mem/heap.c:137-139 | giving a slot back to a full slab keeps all books, the slab changing lists |
| HeapInvariants.RetireSlabSound | kernel/mem/heap.c:190-203 | retiring an empty slab keeps all books, its record going to the idle list |
| HeapInvariants.RetireCacheSound | kernel/mem/heap.c:204-218 | retiring a cache without slabs keeps all books |
| HeapInvariants.RecordsNotNull | kernel/mem/heap.c:48-54 | a record source is 0 exactly when nothing is idle and the arena is too short |
| HeapTheorems.MallocKeepsInv | kernel/mem/heap.c:90-123 | every `malloc` keeps the invariant, failing ones included |
| HeapTheorems.FreeKeepsInv | kernel/mem/heap.c:160-221 | every in-domain `free` keeps the invariant |
| HeapTheorems.FirstCacheNeverNull | kernel/mem/heap.c:96-98 | with an empty cache list and an arena of at least 80 bytes a cache can be made: `cache->next` is never read through 0 |
| HeapTheorems.FoundCacheUsed | kernel/mem/heap.c:97-99 | sizes are unique on the cache list, so any cache of the size is the one `malloc` uses |
| HeapSafety.MallocRefinesMap | kernel/mem/heap.c:90-123 | `malloc` adds exactly one pointer to the live ones, in a slot of the request's size raised to 8, or changes none |
| HeapSafety.LiveObjectsApart | kernel/mem/heap.c:106-108 | live objects never overlap |
| HeapSafety.LiveObjectPlaced | kernel/mem/heap.c:79-86 | a live object lies in the arena behind its slab's header and holds what was asked for |
| HeapSafety.LiveObjectOffRecords | kernel/mem/heap.c:12-26 | no live object touches a cache record or a slab header, idle ones included |
| HeapSafety.ArenaAccounted | kernel/mem/heap.c:48-75 | bytes carved are 32 for each cache and 4128 for each slab, in use or idle |
| HeapSafety.SlabOnOneList | kernel/mem/heap.c:110-121 | a slab in use is on exactly one list: its cache's available one if it has a free slot, its full one otherwise |
| HeapSafety.LiveInCount | kernel/mem/heap.c:109 | `allocated_objects` is the number of the slab's live objects |
| HeapSafety.Occupancy | kernel/mem/heap.c:175-203 | between calls an available slab holds 1 to max - 1 live objects and a full one exactly max |
| HeapSafety.AllIdleWhenNoneLive | kernel/mem/heap.c:190-203 | with no object live, the idle list is exactly all slabs ever carved |
| HeapSafety.MallocFailsIff | kernel/mem/heap.c:44-104 | a small `malloc` returns 0 exactly when its class has no available slab and the cache or slab it needs can come neither from an idle list nor from the arena |
| HeapSafety.IdleSlabServesAnySize | kernel/mem/heap.c:68-81 | an idle slab serves a request of any size whose cache exists or can be made |
| HeapSafety.Run | kernel/mem/heap.c:90-221 | after any in-domain run the invariant holds |
| HeapSafety.EmptyInv | kernel/mem/heap.c:30-37 | the heap `heap_init` sets up satisfies the invariant |
| HeapEffects.SlabHoldsMost | kernel/mem/heap.c:79-86 | a slab has as many slots as fit into its 4096 bytes, one behind the other from 32 bytes on |
| HeapEffects.MallocSlotExact | kernel/mem/heap.c:92 | the slot handed out has exactly the size of the request, raised to 8 |
| HeapEffects.MallocTakes | kernel/mem/heap.c:48-104 | a record is taken only when the class needs one, from the front of its idle list or else 32 or 4128 bytes from the arena; the first object of a new slab lies right behind its header |
| HeapEffects.FreeGivesBack | kernel/mem/heap.c:190-219 | a slab is kept exactly while it holds another live object and its cache exactly while it has a slab; what is not kept goes to the end of its idle list |
| HeapEffects.NextObjectAfterFree | kernel/mem/heap.c:137-189 | `free` leaves the next object of its class the same, or makes it the object given back when the class had no free slot |
| HeapEffects.TwoObjectsFromNothing | kernel/mem/heap.c:90-123 | two requests of one size on a heap just set up get adjacent slots, the first 112 bytes into the arena |
| HeapEffects.RecycledForOtherSize | kernel/mem/heap.c:90-221 | in an arena of 4208 bytes, `malloc(8)`, `free` and `malloc(16)` succeed: slab and cache change their size |
| HeapRep.LiveWritesHarmless | kernel/mem/heap.c:79-86 | programs may write anything into their live objects: no free chain is disturbed |
| HeapRepSteps.AddCacheRep | kernel/mem/heap.c:96-99 | linking the new cache in makes memory hold the longer cache list |
| HeapRepSteps.PushPristineRep | kernel/mem/heap.c:140-146 | the two writes of the insertion make memory hold the chain with the freed slot in it |
| HeapRepSteps.PushFullRep | kernel/mem/heap.c:137-189 | for the last full slab the writes that move it make memory hold both changed lists |
| HeapRepSteps.RetireSlabRep | kernel/mem/heap.c:191-203 | the writes that retire a slab make memory hold the shorter available and the longer idle list |
| HeapMem.KernelHeap.constructor | kernel/mem/heap.c:30-37 | `heap_init` leaves the empty heap |
| HeapMem.KernelHeap.MakeCache | kernel/mem/heap.c:44-62 | takes an idle record first, then fresh arena, and returns 0 without change when neither is left |
| HeapMem.ThreadObjects | kernel/mem/heap.c:79-86 | the chain of a new slab visits all slots in order and ends in the one-past-the-end marker |
| HeapMem.KernelHeap.MakeSlab | kernel/mem/heap.c:64-88 | takes an idle record first, then fresh arena; counters, first free object and chain are set and nothing outside the slab is written |
| HeapMem.KernelHeap.CacheFor | kernel/mem/heap.c:95-100 | finds the cache for a size, or makes it at the end of the list |
| HeapMem.KernelHeap.TakeObject | kernel/mem/heap.c:106-121 | takes the first free slot; a slab that fills up goes to the end of the full list |
| HeapMem.KernelHeap.Malloc | kernel/mem/heap.c:90-123 | result and new heap are those of the specified step, and no live object's bytes change |
| HeapMem.ChainCompares | kernel/mem/heap.c:142 | on a never-filled slab the walk's address comparison agrees with the order of slots, the end marker included |
| HeapMem.KernelHeap.WalkChain | kernel/mem/heap.c:141-143 | the walk stops on a real free slot, the one the freed slot belongs behind |
| HeapMem.SmallPassesOwnSlabOnly | kernel/mem/heap.c:134 | despite its inclusive upper bound, the range test passes for an object at its own slab only |
| HeapMem.KernelHeap.CheckSlab | kernel/mem/heap.c:132-150 | succeeds exactly on the object's slab and then has marked it free; otherwise nothing changes |
| HeapMem.KernelHeap.FindSlab | kernel/mem/heap.c:160-172 | finds the object's slab, cache and list, or reports that no slab's range holds the address |
| HeapMem.KernelHeap.MoveToAvailable | kernel/mem/heap.c:177-188 | moves a slab that was full and last on the full list to the end of the available list |
| HeapMem.KernelHeap.SettleSlab | kernel/mem/heap.c:190-219 | retires a slab that has become empty, and its cache if that has no slab left |
| HeapMem.MarkedOffLive | kernel/mem/heap.c:132-150 | the words `free` writes overlap no object that stays live |
| HeapMem.KernelHeap.Free | kernel/mem/heap.c:160-221 | an in-domain object is found and the new heap is that of the specified step; no other live object's bytes change; an address in no slab is not found and nothing changes |
| FreeLimits.WalkReadsNullIff | kernel/mem/heap.c:138-142 | on a slab with free slots the walk reads through 0 exactly when the slab has been full since it was set up |
| FreeLimits.AvailableListIff | kernel/mem/heap.c:177-188 | a slab taken off the full list ends the available list exactly when it was last; otherwise that list runs on through full slabs |
| FreeLimits.InDomainExact | kernel/mem/heap.c:132-189 | freeing a live object goes right if and only if its slab has its first chain, or is full and last on the full list |
| FreeLimits.SecondFreeOutOfDomain | kernel/mem/heap.c:137-142 | after one free into a full slab, freeing another of its objects is out of domain |
| FreeLimits.SecondWholeSlabBlocksFirst | kernel/mem/heap.c:110-121 | on any heap, two whole-slab requests in a row leave the second pointer in domain and the first out of it |
| FreeLimits.TwoWholeSlabsFromEmpty | kernel/mem/heap.c:90-123 | the same program on the empty heap: a concrete start from which the first pointer cannot be freed |
| KernelMemory.Routing | kernel/mem/heap.c:134-173 | the range test passes for a small pointer at its own slab only and for a large one nowhere, so `free` picks the allocator that issued it |
| KernelMemory.RunRoutes | kernel/mem/heap.c:160-173 | that routing holds after every run mixing `malloc`, in-domain `free`, `phys_alloc` and `phys_free` |
| KernelMemory.Run | kernel/mem/heap.c:90-221 | every such run keeps the invariants of both allocators and the arena live |
| KernelMemory.LiveApart | kernel/mem/heap.c:90-94 | live objects never overlap, whichever allocators they come from |
| KernelMemory.MallocRefinesMap | kernel/mem/heap.c:90-123 | `malloc` adds one pointer with room for the request to the live ones of both allocators, or none; it is the slab heap's exactly for requests of at most 4096 bytes |
| KernelMemory.FreeRefinesMap | kernel/mem/heap.c:160-221 | `free` removes exactly its pointer from the live ones of both allocators |
| KernelMemory.BootInv | kernel/core/kernel.c:96-99 | a heap set up on a freshly allocated arena satisfies the combined invariant |
| KernelMemory.RunsMeet | kernel/mem/heap.c:90-221 | mixed runs that leave the same physical objects leave the same physical list |
| KernelMemory.KernelNeverOverwritten | kernel/core/kernel.c:93-99 | from `prep_mem` and `heap_init` on, through every run that mixes both allocators, neither a block nor a small object touches the kernel's reserved bytes |
| KernelMemory.Kernel.Start | kernel/core/kernel.c:96-99 | gives a kernel with an empty heap on its arena, or the panic exactly when the allocation fails |
| KernelMemory.Kernel.Malloc | kernel/mem/heap.c:90-123 | result and state of both allocators are those of the specified step |
| KernelMemory.Kernel.Free | kernel/mem/heap.c:160-221 | the state of both allocators is that of the specified step |
| BlockMoves.MoveAt | kernel/core/mem.asm:71-174 | what a copy is, byte by byte: the destination gets the source's original bytes and nothing else changes |
| BlockMoves.SpliceAt | kernel/core/mem.asm:4-69 | what a fill is, byte by byte |
| BlockMoves.ForwardCopies | kernel/core/mem.asm:88-167 | odd bytes first and then blocks of 16 make one copy, for disjoint ranges and for a destination below the source |
| BlockMoves.ForwardFrame | kernel/core/mem.asm:88-167 | overlap or not, no byte outside the destination changes |
| BlockMoves.CopyIff | kernel/core/mem.asm:71-174 | `memcpy` copies every content of memory if and only if the destination is not inside the source behind its start, or the count is exactly 16 |
| BlockMoves.OverlapClobbers | kernel/core/mem.asm:88-167 | for every other pair of ranges a memory that comes out wrong |
| BlockMoves.Ram.MemCpy | kernel/core/mem.asm:71-174 | memory ends as the specified sequence of moves leaves it, which is one copy for safe ranges; aligned moves are used at multiples of 16 only |
| BlockMoves.Ram.MemSet | kernel/core/mem.asm:4-69 | every byte of the range gets the value and no other changes; aligned moves are used at multiples of 16 only |
| BlockMoves.FilledRegister | kernel/core/mem.asm:29-37 | the two shuffles put the value into all 16 bytes of the register |
| Itoa.TextReadsBack | kernel/core/utils.c:8-13 | reading the digits back in the base gives the number |
| Itoa.TextInjective | kernel/core/utils.c:8-13 | different numbers have different texts |
| Itoa.NoLeadingZero | kernel/core/utils.c:3-13 | a text starts with a zero exactly for zero, whose text is that one digit |
| Itoa.LengthIff | kernel/core/utils.c:8-13 | a text has at most k digits exactly when the number is below base to the k |
| Itoa.DebugBuffersSuffice | kernel/core/serial.c:29-41 | 17 bytes in base 16 and 21 in base 10 hold every u64 with its terminator |
| Itoa.ToText | kernel/core/utils.c:1-24 | the buffer ends up with text and terminator at its start and unchanged behind them |
| Itoa.WriteDigits | kernel/core/utils.c:6-13 | the loop leaves the terminator and then the digits, lowest first, and writes nothing behind them |
| Itoa.Flip | kernel/core/utils.c:15-22 | turns the written part around in place, an odd middle byte included |
| PciSpec.AddressInjective | kernel/core/pci.c:11-17 | registers of different functions never share a configuration address |
| PciSpec.PlacesOrder | kernel/core/pci.c:76-85 | the scan of a bus goes by slot, and by function number within a slot |
| PciSpec.RankFalls | kernel/core/pci.c:63 | behind a bridge on a bus without loops there is no loop either, and fewer buses lead on from there: why the recursion ends |
| PciTheorems.TrailsIff | kernel/core/pci.c:55-94 | the walk takes exactly the routes through visible bridges that end at a function that is none |
| PciTheorems.TrailsIncrease | kernel/core/pci.c:75-92 | it takes them in the order of slot and function at the first bus where two part |
| PciTheorems.EnumeratedIff | kernel/core/pci.c:55-94 | the list holds a function exactly when it is reachable from the bus and no bridge |
| PciTheorems.EnumeratedOnceIff | kernel/core/pci.c:55-94 | it holds no function twice if and only if no two routes lead to the same one |
| PciTheorems.SingleParentSingleTrails | kernel/core/pci.c:63 | that is so whenever no two bridges reached share a secondary bus |
| PciTheorems.EnumeratedInOrder | kernel/core/pci.c:55-94 | then one device precedes another exactly when its route comes first in scan order: depth-first order |
| PciReturns.WalkNoneIff | kernel/core/pci.c:55-94 | the recursion needs more than a given depth of nested calls exactly when some route of bridges is longer |
| PciReturns.LoopNests | kernel/core/pci.c:63 | a route that meets a bus twice gives routes of bridges of every length |
| PciReturns.ReturnsIff | kernel/core/pci.c:55-94 | enumeration of a bus returns if and only if no route from it meets a bus twice |
| PciReturns.WalkIsDevices | kernel/core/pci.c:55-94 | where the recursion returns it has appended exactly the devices the other theorems speak of |
| PciReturns.RankedIff | kernel/core/pci.c:63 | buses can be ranked so that every bridge reached leads down if and only if there is no loop |
| PciReturns.DownwardsLoopFree | kernel/core/pci.c:63 | so there is none if every bridge reached has a secondary bus number above its own |
| PciReturns.SelfLoopReturnsIff | kernel/core/pci.c:100-106 | a concrete configuration: with one bridge that leads to its own bus, enumeration from bus 0 returns exactly when that is another bus |
| PciTopology.CardReadsBack | kernel/core/pci.c:11-51 | on a configuration space written down register by register, the reads find which functions are present, the multi-function bit, the header layout and the secondary bus |
| PciTopology.TopologyReturnsIff | kernel/core/pci.c:55-94 | enumeration of such a configuration returns exactly when no way through its bridges meets a bus twice |
| PciTopology.TopologyListedIff | kernel/core/pci.c:55-94 | it lists exactly the functions in place at the end of such ways that are no bridges, numbers above 0 only behind a function 0 with the multi-function bit |
| PciTopology.TwoFunctionsListed | kernel/core/pci.c:78-90 | a slot with functions 0 and 1 gives both, in order, when function 0 has that bit, and function 0 alone when it has not |
| PciMem.Enumerator.Append | kernel/core/pci.c:64-71 | appends one record to the null-terminated list and leaves the others as they were |
| PciMem.Enumerator.EnumerateDevice | kernel/core/pci.c:55-73 | appends the function, or everything behind it if it is a bridge, and returns, if there is no loop behind it |
| PciMem.Enumerator.EnumerateBus | kernel/core/pci.c:75-94 | appends everything on the bus and behind its bridges, and returns, if there is no loop |
| PciMem.InitPci | kernel/core/pci.c:100-106 | the list ends up as the devices enumerated from bus 0 |
| Drawing.OrderIrrelevant | kernel/video/drawing.c:1-6 | dots at different places leave the same picture in any order |
| TargaTheorems.PlainApart | kernel/video/processing.c:36-54 | the plain decoder never draws to one place twice, even where coordinates wrap at 16 bits |
| TargaTheorems.PlainShows | kernel/video/processing.c:63-80 | each place of the image ends up with its file pixel's colour, rows taken from the file's last up for a bottom-left origin |
| TargaTheorems.PlainSpares | kernel/video/processing.c:63-80 | every other place of the screen keeps its colour |
| TargaTheorems.RunLengthMatchesPlain | kernel/video/processing.c:57-232 | the run-length decoder's dots for an image draw what the plain decoder's draw, one row lower for a bottom-left origin |
| TargaTheorems.LaidShows | kernel/video/processing.c:112-127 | each place of the image ends up with its file pixel's colour, a row lower for a bottom-left origin |
| TargaPackets.StreamExpands | kernel/video/processing.c:95-160 | reading any stream of run and raw packets gives back the colours of the pixels it stands for |
| TargaPackets.OffsetsExactIff | kernel/video/processing.c:71-73 | the plain decoder reads every pixel of a file at the address where it is stored if and only if the last offset fits in 32 bits |
| TargaPackets.OneByteOffsetsExact | kernel/video/processing.c:40 | one-byte indices are always read where they are stored |
| TargaPackets.HugeMisread | kernel/video/processing.c:71-73 | a concrete file of supported type whose pixel 2^30 is read at the first pixel's address and shown in its colour |
| TargaPackets.PacketsMatchPlain | kernel/video/processing.c:57-232 | for every cutting of an image into packets, rows crossed or not, both decoders draw the same picture, one row lower for a bottom-left origin |
| TargaPackets.SameDrawingIff | kernel/video/processing.c:57-232 | both decoders draw the same picture on every screen if and only if the origin is top-left |
| TargaFiles.FieldsReadBack | kernel/video/processing.c:1-19 | for a file written down field by field, the header is read back: width, height, origin, depth and colour map fields |
| TargaFiles.LayoutReadsBack | kernel/video/processing.c:25-31 | and so are which files are drawn, the bytes a pixel takes, and where colour map and image data lie |
| TargaFiles.ColourReadsBack | kernel/video/processing.c:43-47 | a mapped pixel has the colour of the map entry its index names, any other its own |
| TargaFiles.PlainFileShows | kernel/video/processing.c:25-82 | a plain file shows the colour of each of its pixels at its place |
| TargaFiles.RunLengthFileShows | kernel/video/processing.c:83-232 | so does a run-length file, however its pixels are cut into packets, a row lower for a bottom-left origin |
| TargaFiles.TwinFiles | kernel/video/processing.c:25-232 | a plain and a run-length file of the same picture are ones the comparison of the decoders applies to |
| TargaMem.AdvanceAt | kernel/video/processing.c:115-126 | counters and end flag stand where the number of pixels drawn says, wrap-around and overrun included |
| TargaMem.Fetch | kernel/video/processing.c:135-144 | the masked wide reads give exactly the colour of the stored pixel, whatever follows it in memory |
| TargaMem.Screen.PutPixel | kernel/video/drawing.c:1-6 | changes exactly the addressed pixel of the buffer, and nothing for a place outside it |
| TargaMem.Screen.PutPacket | kernel/video/processing.c:178-229 | draws the packet's colours at the cursor and ends behind its last byte |
| TargaMem.Screen.DrawRunLength | kernel/video/processing.c:170-230 | ends on every stream, and has drawn whole packets up to the one that completes the last row |
| TargaMem.Screen.DrawPlain | kernel/video/processing.c:63-80 | draws every pixel of the file in its place |
| TargaMem.Screen.PutTarga | kernel/video/processing.c:23-236 | succeeds exactly for the supported types and depths, and draws nothing otherwise |

## Left out

* Debug output, `dump_mem_info`, `dump_phys_mem`, `dump_heap`, the serial port, and the drawing done by a panic.
* `cmalloc`, `strcmp`, `align`, `set_active_heap`, the getters of `pci.c`, `get_pixel`, `put_rect`, `composite_buffer` and text drawing: short
  bodies that say what they do.
* `scale_buffer` and `round`: floating point.
* The boot sectors and the loader. What `prep_mem` needs of them is a precondition: usable entries are disjoint and end
  below 2^64, and the size given for the kernel holds a header and fits the region it was loaded into.
* Disk access, interrupts and ACPI: device programming.
* Port access behind configuration space, which is a fixed function from address register to data register.
* Memory is kept as typed cells keyed by address, not as bytes. The theorems on overlap are what make this sound; the
  contents of an object's bytes that are not free-chain words are not modelled.
* The fault on a misaligned `movdqa` is the precondition of `LoadAligned` and `StoreAligned`; saved registers and
  flags are not modelled.
* The four cases of `put_targa` differ in how a stored pixel is looked up and are modelled as two loops over one lookup.
  The frame buffer is taken not to overlap the file, and file addresses not to reach 2^64.
* PhysSpec.LegalRun: frees of pointers that are not live, and requests above 2^64 - 64 bytes, are not legal steps.
* HeapTheorems.FreeStep: defined for in-domain pointers only, because `free` corrupts its lists for all others, as
  `FreeLimits.InDomainExact` says.
* PciMem.Enumerator.EnumerateBus: required to be called without a loop ahead, because Dafny's methods end; that the code
  does not return otherwise is `PciReturns.ReturnsIff`, on the recursion cut off at a depth. The stack such a loop uses up is
  not modelled.
* PciMem.Enumerator.Append: allocating a list record never fails, because the code does not check it.
* TargaFiles.ColourReadsBack: speaks of colour maps with entries of 24 or 32 bits; for other sizes the code takes four bytes
  an entry, whatever the map holds.
* TargaPackets.PacketsMatchPlain: compares images whose packets end with the last pixel; a last packet that runs over is
  drawn below or above the image, as `TargaMem.Screen.DrawRunLength` says.
