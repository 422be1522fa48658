/**
 malloc and free over both allocators: objects of at most a slab come from the slab heap, larger ones from the
 physical memory manager, and the slab heap's arena is itself one live block of the latter.
 */
module KernelMemory {
  import opened Machine
  import P = PhysSpec
  import PT = PhysTheorems
  import PM = PhysMem
  import BT = BootTheorems
  import H = HeapSpec
  import HT = HeapTheorems
  import HS = HeapSafety
  import HM = HeapMem
  import HR = HeapRep

  datatype State = State(blocks: seq<P.Block>, heap: H.Heap)

  /** The arena is the payload of one live block, and holds the heap's header and a cache at least. */
  ghost predicate Inv(s: State) {
    && P.Tiled(s.blocks) && H.Inv(s.heap)
    && P.IsLive(s.blocks, s.heap.base)
    && s.heap.base + H.HEAP_HEADER + H.CACHE_BYTES <= s.heap.end <= Arena(s).GapStart()
  }

  function Arena(s: State): P.Block
    requires P.IsLive(s.blocks, s.heap.base)
  {
    s.blocks[P.IndexOf(s.blocks, s.heap.base - P.HEADER)]
  }

  /** Is p a live object of the slab heap? */
  predicate Small(s: State, p: int) {
    p in s.heap.live
  }

  /** Is p a live block of the physical memory manager other than the arena? */
  predicate Large(s: State, p: int) {
    P.IsLive(s.blocks, p) && p != s.heap.base
  }

  datatype Op = Malloc(len: nat) | Free(p: int) | PhysAlloc(size: U64) | PhysFree(p: int)

  /**
   Requests are u32 for malloc and do not wrap for phys_alloc; frees are of live, in-domain pointers, never of the
   arena.
   */
  predicate Legal(s: State, op: Op) {
    match op
    case Malloc(len) => len < 0x1_0000_0000
    case Free(p) => HT.InDomain(s.heap, p) || Large(s, p)
    case PhysAlloc(size) => size <= TWO_TO_64 - 64
    case PhysFree(p) => Large(s, p)
  }

  /** Does some slab in use pass free's range test for p? */
  ghost predicate PassesRangeTest(s: State, p: int) {
    exists x :: x in s.heap.slabs && HM.InRange(x, p)
  }

  /** malloc: the pointer it returns, NULL on failure. */
  ghost function MallocStep(s: State, len: nat): (State, int)
    requires Inv(s) && len < 0x1_0000_0000
  {
    if len > H.SLAB_SIZE then
      var (blocks, p) := P.AllocStep(s.blocks, len);
      (s.(blocks := blocks), p)
    else
      var (heap, p) := HT.MallocStep(s.heap, len);
      (s.(heap := heap), p)
  }

  /** free: decided, as in the code, by the range test alone. */
  ghost function FreeStep(s: State, p: int): State
    requires Inv(s) && Legal(s, Free(p))
  {
    Routing(s, p);
    if PassesRangeTest(s, p) then s.(heap := HT.FreeStep(s.heap, p))
    else s.(blocks := P.FreeStep(s.blocks, p))
  }

  // ----- Routing -----

  /** A live block's payload other than the arena lies outside the reach of every slab's range test. */
  lemma LargePassesNoTest(s: State, p: int, x: int)
    requires Inv(s) && Large(s, p) && x in s.heap.slabs
    ensures !HM.InRange(x, p)
  {
    var i, a := P.IndexOf(s.blocks, p - P.HEADER), P.IndexOf(s.blocks, s.heap.base - P.HEADER);
    PT.BlocksDisjoint(s.blocks, i, a);
    assert P.Sane(s.blocks[i]) && P.Sane(s.blocks[a]);
    HS.SlabInArena(s.heap, x);
  }

  /** free hands every pointer to the allocator that issued it. */
  lemma Routing(s: State, p: int)
    requires Inv(s) && (Small(s, p) || Large(s, p))
    ensures PassesRangeTest(s, p) <==> Small(s, p)
    ensures Small(s, p) <==> !Large(s, p)
    ensures Small(s, p) ==> forall x :: x in s.heap.slabs ==> (HM.InRange(x, p) <==> x == s.heap.live[p].slab)
  {
    if Small(s, p) {
      HS.LiveObjectPlaced(s.heap, p);
      forall x | x in s.heap.slabs ensures HM.InRange(x, p) <==> x == s.heap.live[p].slab {
        HM.SmallPassesOwnSlabOnly(s.heap, p, x);
      }
      assert HM.InRange(s.heap.live[p].slab, p);
      if Large(s, p) {
        LargePassesNoTest(s, p, s.heap.live[p].slab);
        assert false;
      }
    } else {
      forall x | x in s.heap.slabs ensures !HM.InRange(x, p) {
        LargePassesNoTest(s, p, x);
      }
    }
  }

  // ----- Every run -----

  lemma AllocKeepsLive(s: seq<P.Block>, size: U64, q: int)
    requires P.Tiled(s) && size <= TWO_TO_64 - 64 && P.IsLive(s, q)
    ensures var t := P.AllocStep(s, size).0;
      && P.Tiled(t) && P.IsLive(t, q)
      && t[P.IndexOf(t, q - P.HEADER)].Erased() == s[P.IndexOf(s, q - P.HEADER)].Erased()
      && P.AllocStep(s, size).1 != q
  {
    P.AllocTiles(s, size);
    PT.AllocAddsOne(s, size);
    PT.FreeRemovesOne(s, q);
    var b := s[P.IndexOf(s, q - P.HEADER)].Erased();
    PT.ObjectIsLive(P.AllocStep(s, size).0, b);
    if P.AllocStep(s, size).1 == q {
      PT.LiveNotNull(s, q);
      PT.ObjectIsLive(P.AllocStep(s, size).0, PT.NewObject(s, size));
      assert false;
    }
  }

  lemma BlocksStepKeepsInv(s: State, op: P.Op)
    requires Inv(s) && P.Legal(s.blocks, op) && op != P.Free(s.heap.base)
    ensures Inv(s.(blocks := P.Step(s.blocks, op)))
  {
    match op
    case Alloc(size) => AllocKeepsLive(s.blocks, size, s.heap.base);
    case Free(p) => PT.FreeLeavesOthersLive(s.blocks, p, s.heap.base);
  }

  /** What one operation is on each of the two allocators. */
  ghost function Step(s: State, op: Op): (t: State)
    requires Inv(s) && Legal(s, op)
    ensures Inv(t)
  {
    match op
    case Malloc(len) =>
      if len > H.SLAB_SIZE then BlocksStepKeepsInv(s, P.Alloc(len)); MallocStep(s, len).0
      else HT.MallocKeepsInv(s.heap, len); MallocStep(s, len).0
    case Free(p) =>
      Routing(s, p);
      if PassesRangeTest(s, p) then HT.FreeKeepsInv(s.heap, p); FreeStep(s, p)
      else BlocksStepKeepsInv(s, P.Free(p)); FreeStep(s, p)
    case PhysAlloc(size) => BlocksStepKeepsInv(s, P.Alloc(size)); s.(blocks := P.AllocStep(s.blocks, size).0)
    case PhysFree(p) => BlocksStepKeepsInv(s, P.Free(p)); s.(blocks := P.FreeStep(s.blocks, p))
  }

  ghost predicate LegalRun(s: State, ops: seq<Op>)
    requires Inv(s)
    decreases |ops|
  {
    ops == [] || (Legal(s, ops[0]) && LegalRun(Step(s, ops[0]), ops[1..]))
  }

  ghost function Run(s: State, ops: seq<Op>): (t: State)
    requires Inv(s) && LegalRun(s, ops)
    ensures Inv(t)
    decreases |ops|
  {
    if ops == [] then s else Run(Step(s, ops[0]), ops[1..])
  }

  /**
   After any run mixing malloc, in-domain free, phys_alloc and phys_free, free's range test tells the two kinds
   of pointer apart: it passes for a small one at its own slab only, and for a large one nowhere.
   */
  lemma RunRoutes(s: State, ops: seq<Op>, p: int)
    requires Inv(s) && LegalRun(s, ops)
    requires Small(Run(s, ops), p) || Large(Run(s, ops), p)
    ensures var t := Run(s, ops);
      && (PassesRangeTest(t, p) <==> Small(t, p))
      && (Large(t, p) <==> !Small(t, p))
      && (Small(t, p) ==> forall x :: x in t.heap.slabs ==> (HM.InRange(x, p) <==> x == t.heap.live[p].slab))
  {
    Routing(Run(s, ops), p);
  }

  // ----- One map of live pointers -----

  /** Bytes a live pointer stands for. */
  function Extent(s: State, p: int): int
    requires Small(s, p) ==> s.heap.live[p].slab in s.heap.slabs
    requires !Small(s, p) ==> P.IsLive(s.blocks, p)
  {
    if Small(s, p) then HS.SlotSize(s.heap, p) else s.blocks[P.IndexOf(s.blocks, p - P.HEADER)].size
  }

  /** Whatever two allocators they come from, live objects never overlap. */
  lemma LiveApart(s: State, p: int, q: int)
    requires Inv(s) && p != q && (Small(s, p) || Large(s, p)) && (Small(s, q) || Large(s, q))
    ensures Small(s, p) ==> s.heap.live[p].slab in s.heap.slabs
    ensures Small(s, q) ==> s.heap.live[q].slab in s.heap.slabs
    ensures p + Extent(s, p) <= q || q + Extent(s, q) <= p
  {
    if Small(s, p) && Small(s, q) {
      HS.LiveObjectsApart(s.heap, p, q);
    } else if Small(s, p) {
      SmallLargeApart(s, p, q);
    } else if Small(s, q) {
      SmallLargeApart(s, q, p);
    } else {
      var i, j := P.IndexOf(s.blocks, p - P.HEADER), P.IndexOf(s.blocks, q - P.HEADER);
      PT.BlocksDisjoint(s.blocks, i, j);
      assert P.Sane(s.blocks[i]) && P.Sane(s.blocks[j]);
    }
  }

  lemma SmallLargeApart(s: State, p: int, q: int)
    requires Inv(s) && Small(s, p) && Large(s, q)
    ensures s.heap.live[p].slab in s.heap.slabs && !Small(s, q)
    ensures p + Extent(s, p) <= q || q + Extent(s, q) <= p
  {
    HS.LiveObjectPlaced(s.heap, p);
    Routing(s, q);
    var i, a := P.IndexOf(s.blocks, q - P.HEADER), P.IndexOf(s.blocks, s.heap.base - P.HEADER);
    PT.BlocksDisjoint(s.blocks, i, a);
    assert P.Sane(s.blocks[i]) && P.Sane(s.blocks[a]);
    HS.SlabInArena(s.heap, s.heap.live[p].slab);
  }

  /**
   malloc returns a pointer that was not live, with room for the request, and leaves all other live pointers as they
   are.
   */
  lemma MallocRefinesMap(s: State, len: nat)
    requires Inv(s) && len < 0x1_0000_0000
    ensures var (t, p) := MallocStep(s, len);
      Inv(t) &&
      if p == NULL then forall q :: (Small(t, q) <==> Small(s, q)) && (Large(t, q) <==> Large(s, q))
      else
        && !Small(s, p) && !Large(s, p) && (Small(t, p) <==> len <= 4096) && (Large(t, p) <==> len > 4096)
        && (Small(t, p) ==> t.heap.live[p].slab in t.heap.slabs) && Extent(t, p) >= len
        && (forall q :: q != p ==> (Small(t, q) <==> Small(s, q)) && (Large(t, q) <==> Large(s, q)))
  {
    var (t, p) := MallocStep(s, len);
    assert t == Step(s, Malloc(len));
    if len > H.SLAB_SIZE {
      MallocLargeRefines(s, len);
    } else {
      MallocSmallRefines(s, len);
    }
  }

  lemma MallocLargeRefines(s: State, len: nat)
    requires Inv(s) && H.SLAB_SIZE < len < 0x1_0000_0000
    ensures var (t, p) := MallocStep(s, len);
      && t.heap == s.heap
      && (forall q :: Large(t, q) <==> Large(s, q) || (p != NULL && q == p))
      && (p != NULL ==> !Small(s, p) && !Large(s, p) && P.IsLive(t.blocks, p) && Extent(t, p) >= len)
  {
    var (t, p) := MallocStep(s, len);
    assert t == Step(s, Malloc(len));
    forall q ensures P.IsLive(t.blocks, q) <==> P.IsLive(s.blocks, q) || (p != NULL && q == p) {
      PT.AllocLiveExactly(s.blocks, len, q);
    }
    AllocKeepsLive(s.blocks, len, s.heap.base);
    if p != NULL {
      PT.AllocLiveExactly(s.blocks, len, p);
      PT.AllocAddsOne(s.blocks, len);
      PT.ObjectIsLive(t.blocks, PT.NewObject(s.blocks, len));
      Routing(t, p);
    }
  }

  lemma MallocSmallRefines(s: State, len: nat)
    requires Inv(s) && len <= H.SLAB_SIZE
    ensures var (t, p) := MallocStep(s, len);
      && t.blocks == s.blocks && t.heap.base == s.heap.base
      && (forall q :: Small(t, q) <==> Small(s, q) || (p != NULL && q == p))
      && (p != NULL ==> !Small(s, p) && !Large(s, p) && t.heap.live[p].slab in t.heap.slabs && Extent(t, p) >= len)
  {
    var (t, p) := MallocStep(s, len);
    assert t == Step(s, Malloc(len));
    HS.MallocRefinesMap(s.heap, len);
    if p != NULL {
      Routing(t, p);
    }
  }

  /** free makes exactly the given pointer dead. */
  lemma FreeRefinesMap(s: State, p: int)
    requires Inv(s) && Legal(s, Free(p))
    ensures var t := FreeStep(s, p);
      && Inv(t) && !Small(t, p) && !Large(t, p)
      && (forall q :: q != p ==> (Small(t, q) <==> Small(s, q)) && (Large(t, q) <==> Large(s, q)))
  {
    var t := FreeStep(s, p);
    assert t == Step(s, Free(p));
    Routing(s, p);
    if !PassesRangeTest(s, p) {
      forall q ensures Large(t, q) <==> Large(s, q) && q != p {
        PT.FreeLiveExactly(s.blocks, p, q);
      }
    }
  }

  /** kmain: the heap is set up on a freshly allocated arena. */
  lemma BootInv(blocks: seq<P.Block>, size: U64)
    requires P.Tiled(blocks) && H.HEAP_HEADER + H.CACHE_BYTES <= size <= TWO_TO_64 - 64
    requires P.AllocStep(blocks, size).1 != NULL
    ensures var (t, arena) := P.AllocStep(blocks, size);
      Inv(State(t, HS.Empty(arena, size)))
  {
    var (t, arena) := P.AllocStep(blocks, size);
    P.AllocTiles(blocks, size);
    PT.AllocAddsOne(blocks, size);
    PT.ObjectIsLive(t, PT.NewObject(blocks, size));
    PT.LiveNotNull(t, arena);
    HS.EmptyInv(arena, size);
  }

  /** The blocks that are neither objects nor gaps are the same after every run. */
  lemma {:induction false} RunKeepsPinned(s: State, ops: seq<Op>)
    requires Inv(s) && LegalRun(s, ops)
    ensures PT.Pinned(Run(s, ops).blocks) == PT.Pinned(s.blocks)
    decreases |ops|
  {
    if ops != [] {
      StepKeepsPinned(s, ops[0]);
      RunKeepsPinned(Step(s, ops[0]), ops[1..]);
    }
  }

  lemma StepKeepsPinned(s: State, op: Op)
    requires Inv(s) && Legal(s, op)
    ensures PT.Pinned(Step(s, op).blocks) == PT.Pinned(s.blocks)
  {
    match op
    case Malloc(len) =>
      if len > H.SLAB_SIZE {
        PT.StepKeepsPinned(s.blocks, P.Alloc(len));
      }
    case Free(p) =>
      Routing(s, p);
      if !PassesRangeTest(s, p) {
        PT.StepKeepsPinned(s.blocks, P.Free(p));
      }
    case PhysAlloc(size) => PT.StepKeepsPinned(s.blocks, P.Alloc(size));
    case PhysFree(p) => PT.StepKeepsPinned(s.blocks, P.Free(p));
  }

  /** prep_mem has placed the kernel in region i, and there is room for an arena of `size` bytes. */
  ghost predicate Boots(heads: seq<P.Block>, i: nat, kernelSize: U64, size: U64) {
    && P.Tiled(heads) && PM.AllHeads(heads) && i < |heads| && P.HEADER <= kernelSize <= heads[i].free
    && H.HEAP_HEADER + H.CACHE_BYTES <= size <= TWO_TO_64 - 64
    && P.AllocStep(BT.Booted(heads, i, kernelSize), size).1 != NULL
  }

  /** The state in which kmain starts using memory: an empty heap on its arena. */
  ghost function Booted(heads: seq<P.Block>, i: nat, kernelSize: U64, size: U64): (s: State)
    requires Boots(heads, i, kernelSize, size)
    ensures Inv(s)
  {
    BootInv(BT.Booted(heads, i, kernelSize), size);
    var (blocks, arena) := P.AllocStep(BT.Booted(heads, i, kernelSize), size);
    State(blocks, HS.Empty(arena, size))
  }

  /** Neither the block b nor the small object p, if live, touches the bytes prep_mem reserved for the kernel. */
  ghost predicate OffKernel(heads: seq<P.Block>, i: nat, kernelSize: U64, t: State, b: P.Block, p: int)
    requires i < |heads|
  {
    var kernel := heads[i].addr + 2 * P.HEADER;
    && (b in PT.LiveObjects(t.blocks) ==> PT.Apart(b.addr, b.GapStart(), kernel, kernel + kernelSize - P.HEADER))
    && (Small(t, p) && t.heap.live[p].slab in t.heap.slabs ==>
         PT.Apart(p, p + Extent(t, p), kernel, kernel + kernelSize - P.HEADER))
  }

  lemma KernelApart(heads: seq<P.Block>, i: nat, kernelSize: U64, t: State, b: P.Block, p: int)
    requires P.Tiled(heads) && PM.AllHeads(heads) && i < |heads| && P.HEADER <= kernelSize <= heads[i].free
    requires Inv(t) && PT.Pinned(t.blocks) == PT.Pinned(BT.Booted(heads, i, kernelSize))
    ensures OffKernel(heads, i, kernelSize, t, b, p)
  {
    if b in PT.LiveObjects(t.blocks) {
      BT.KernelBytesApart(heads, i, kernelSize, t.blocks, b);
    }
    if Small(t, p) && t.heap.live[p].slab in t.heap.slabs {
      var arena := Arena(t).Erased();
      assert arena in PT.LiveObjects(t.blocks);
      BT.KernelBytesApart(heads, i, kernelSize, t.blocks, arena);
      hide Inv, P.Tiled, P.IndexOf;
      SmallInArena(t, p);
    }
  }

  lemma BootedKeepsPinned(heads: seq<P.Block>, i: nat, kernelSize: U64, size: U64)
    requires Boots(heads, i, kernelSize, size)
    ensures PT.Pinned(Booted(heads, i, kernelSize, size).blocks) == PT.Pinned(BT.Booted(heads, i, kernelSize))
  {
    PT.StepKeepsPinned(BT.Booted(heads, i, kernelSize), P.Alloc(size));
  }

  lemma BootsPlaces(heads: seq<P.Block>, i: nat, kernelSize: U64, size: U64)
    requires Boots(heads, i, kernelSize, size)
    ensures P.Tiled(heads) && PM.AllHeads(heads) && i < |heads| && P.HEADER <= kernelSize <= heads[i].free
  {
  }

  /**
   Through every run that mixes the operations of both allocators, no live object touches the kernel's reserved bytes.
   */
  lemma KernelNeverOverwritten(
    heads: seq<P.Block>, i: nat, kernelSize: U64, size: U64, ops: seq<Op>, b: P.Block, p: int)
    requires Boots(heads, i, kernelSize, size) && LegalRun(Booted(heads, i, kernelSize, size), ops)
    ensures OffKernel(heads, i, kernelSize, Run(Booted(heads, i, kernelSize, size), ops), b, p)
  {
    hide Boots, Booted, BT.Booted, Inv, LegalRun, Run, P.Tiled, PM.AllHeads, PT.Pinned, OffKernel;
    BootsPlaces(heads, i, kernelSize, size);
    BootedKeepsPinned(heads, i, kernelSize, size);
    RunKeepsPinned(Booted(heads, i, kernelSize, size), ops);
    KernelApart(heads, i, kernelSize, Run(Booted(heads, i, kernelSize, size), ops), b, p);
  }

  lemma SmallInArena(s: State, p: int)
    requires Inv(s) && Small(s, p) && s.heap.live[p].slab in s.heap.slabs
    ensures Arena(s).addr <= p && p + Extent(s, p) <= Arena(s).GapStart()
  {
    HS.LiveObjectPlaced(s.heap, p);
    HS.SlabInArena(s.heap, s.heap.live[p].slab);
  }

  /** Runs over both allocators that leave the same physical objects leave the same physical list. */
  lemma RunsMeet(s: State, ops: seq<Op>, ops': seq<Op>)
    requires Inv(s) && LegalRun(s, ops) && LegalRun(s, ops')
    requires PT.LiveObjects(Run(s, ops).blocks) == PT.LiveObjects(Run(s, ops').blocks)
    ensures Run(s, ops).blocks == Run(s, ops').blocks
  {
    RunKeepsPinned(s, ops);
    RunKeepsPinned(s, ops');
    var t, t' := Run(s, ops).blocks, Run(s, ops').blocks;
    assert PT.Occupied(t) == PT.Pinned(t) + PT.LiveObjects(t);
    assert PT.Occupied(t') == PT.Pinned(t') + PT.LiveObjects(t');
    PT.ListDeterminedByOccupied(t, t');
  }

  // ----- The kernel's own entry points -----

  class Kernel {
    var phys: PM.PhysicalMemory
    var heap: HM.KernelHeap

    ghost predicate Valid()
      reads this, phys, heap
    {
      phys.Valid() && heap.Valid() && Inv(Current())
    }

    ghost function Current(): State
      reads this, phys, heap
    {
      State(phys.blocks, heap.st)
    }

    constructor (phys: PM.PhysicalMemory, arena: int, size: U64, ghost before: seq<P.Block>)
      requires phys.Valid() && P.Tiled(before) && H.HEAP_HEADER + H.CACHE_BYTES <= size <= TWO_TO_64 - 64
      requires arena != NULL && (phys.blocks, arena) == P.AllocStep(before, size)
      ensures Valid() && this.phys == phys && fresh(heap)
      ensures Current() == State(phys.blocks, HS.Empty(arena, size))
    {
      BootInv(before, size);
      PT.LiveNotNull(phys.blocks, arena);
      hide P.AllocStep, P.Tiled, PM.Linked, H.Sound, HR.Rep;
      this.phys := phys;
      this.heap := new HM.KernelHeap(arena, size);
    }

    /**
     kmain: the arena is one phys_alloc, and heap_init makes it an empty heap; null stands for the panic when there is
     no room.
     */
    static method Start(phys: PM.PhysicalMemory, size: U64) returns (kernel: Kernel?)
      requires phys.Valid() && H.HEAP_HEADER + H.CACHE_BYTES <= size <= TWO_TO_64 - 64
      modifies phys
      ensures kernel == null <==> P.AllocStep(old(phys.blocks), size).1 == NULL
      ensures kernel == null ==> phys.Valid() && phys.blocks == old(phys.blocks)
      ensures kernel != null ==> fresh(kernel) && fresh(kernel.heap) && kernel.phys == phys && kernel.Valid()
      ensures kernel != null ==>
        kernel.Current() == State(P.AllocStep(old(phys.blocks), size).0,
          HS.Empty(P.AllocStep(old(phys.blocks), size).1, size))
    {
      ghost var before := phys.blocks;
      var arena := phys.Alloc(size);
      if arena == NULL {
        return null;
      }
      kernel := new Kernel(phys, arena, size, before);
    }

    /** malloc. */
    method Malloc(len: nat) returns (ptr: int)
      requires Valid() && len < 0x1_0000_0000
      modifies phys, heap
      ensures Valid() && phys == old(phys) && heap == old(heap)
      ensures (Current(), ptr) == MallocStep(old(Current()), len)
    {
      ghost var s := Current();
      ghost var t := Step(s, Op.Malloc(len));
      if len > H.SLAB_SIZE {
        ptr := phys.Alloc(len);
      } else {
        ptr := heap.Malloc(len);
      }
    }

    /** free: to the physical memory manager exactly when no slab claims the pointer. */
    method Free(ptr: int)
      requires Valid() && Legal(Current(), Op.Free(ptr))
      modifies phys, heap
      ensures Valid() && phys == old(phys) && heap == old(heap)
      ensures Current() == FreeStep(old(Current()), ptr)
    {
      ghost var s := Current();
      Routing(s, ptr);
      ghost var t := Step(s, Op.Free(ptr));
      hide P.Tiled, PM.Linked, H.Sound, H.Inv, HR.Rep, P.FreeStep, HT.FreeStep;
      var found := heap.Free(ptr);
      if !found {
        phys.Free(ptr);
      }
    }
  }
}
