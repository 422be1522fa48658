/** What the heap invariant means for callers: disjoint objects, a plain map of live pointers, full accounting. */
module HeapSafety {
  import opened Machine
  import opened Lists
  import opened HeapSpec
  import opened HeapInvariants
  import opened HeapTheorems

  // ----- The heap is a map from pointers to sizes -----

  /** The bytes of a live object: its whole slot. */
  function SlotSize(h: Heap, p: int): int
    requires p in h.live && h.live[p].slab in h.slabs
  {
    h.slabs[h.live[p].slab].size
  }

  /** malloc adds one pointer that was not live, with room for the request, or changes nothing a caller sees. */
  lemma MallocRefinesMap(h: Heap, len: int)
    requires Inv(h) && 0 <= len <= SLAB_SIZE
    ensures var (h', p) := MallocStep(h, len);
      if p == NULL then h'.live == h.live
      else
        && p !in h.live && p in h'.live && h'.live == h.live[p := h'.live[p]]
        && h'.live[p].len == len && h'.live[p].slab in h'.slabs && SlotSize(h', p) == (if len < 8 then 8 else len)
  {
    var (h1, c) := WithCache(h, ObjectSize(len));
    if c != NULL {
      TakeFromRefines(h1, c, len);
    }
  }

  lemma TakeFromRefines(h: Heap, c: int, len: int)
    requires Sound(h) && c in h.caches && len <= h.caches[c].size
    ensures var (h', p) := TakeFrom(h, c, len);
      if p == NULL then h' == h && h.caches[c].avail == [] && SlabSource(h) == NULL
      else
        && (h.caches[c].avail != [] || SlabSource(h) != NULL)
        && p !in h.live && p in h'.live && h'.live == h.live[p := h'.live[p]]
        && h'.live[p].len == len && h'.live[p].slab in h'.slabs && SlotSize(h', p) == h.caches[c].size
  {
    if h.caches[c].avail != [] {
      PopRefines(h, c, len);
    } else if SlabSource(h) != NULL {
      AddSlabSound(h, c);
      PopRefines(AddSlab(h, c), c, len);
    }
  }

  lemma PopRefines(h: Heap, c: int, len: int)
    requires Sound(h) && c in h.caches && h.caches[c].avail != [] && len <= h.caches[c].size
    ensures PopReady(h, c)
    ensures var (h', p) := Pop(h, c, len);
      && p != NULL && p !in h.live && p in h'.live && h'.live == h.live[p := h'.live[p]]
      && h'.live[p].len == len && h'.live[p].slab in h'.slabs && SlotSize(h', p) == h.caches[c].size
  {
    PopSound(h, c, len);
    PopEnabled(h, c);
  }

  /** Live objects never overlap. */
  lemma LiveObjectsApart(h: Heap, p: int, q: int)
    requires Sound(h) && p in h.live && q in h.live && p != q
    ensures h.live[p].slab in h.slabs && h.live[q].slab in h.slabs
    ensures p + SlotSize(h, p) <= q || q + SlotSize(h, q) <= p
  {
    assert Placed(h.slabs, p, h.live[p]) && Placed(h.slabs, q, h.live[q]);
    SlotsApart(h, h.live[p].slab, h.live[p].slot, h.live[q].slab, h.live[q].slot);
  }

  /** A live object lies in the arena, behind its slab's header, and holds what was asked for. */
  lemma LiveObjectPlaced(h: Heap, p: int)
    requires Sound(h) && p in h.live
    ensures h.live[p].slab in h.slabs
    ensures h.live[p].len <= SlotSize(h, p)
    ensures var x := h.live[p].slab;
      h.base + HEAP_HEADER <= x && x + SLAB_HEADER <= p && p + SlotSize(h, p) <= x + SLAB_BYTES <= h.brk
  {
    assert Placed(h.slabs, p, h.live[p]);
    SlotInSlab(h.live[p].slab, SlotSize(h, p), h.live[p].slot);
    RecordInArena(h.carved, h.base, h.brk, Record(h.live[p].slab, SlabRecord));
  }

  lemma SlabInArena(h: Heap, x: int)
    requires Sound(h) && x in h.slabs
    ensures h.base + HEAP_HEADER <= x && x + SLAB_BYTES <= h.brk <= h.end
  {
    RecordInArena(h.carved, h.base, h.brk, Record(x, SlabRecord));
  }

  /** No live object touches a cache record or a slab header, idle ones included. */
  lemma LiveObjectOffRecords(h: Heap, p: int, r: Record)
    requires Sound(h) && p in h.live && r in h.carved
    ensures h.live[p].slab in h.slabs
    ensures p + SlotSize(h, p) <= r.addr || r.addr + (if r.kind.CacheRecord? then CACHE_BYTES else SLAB_HEADER) <= p
  {
    LiveObjectPlaced(h, p);
    var own := Record(h.live[p].slab, SlabRecord);
    if r != own {
      RecordsApart(h.carved, h.base, h.brk, own, r);
    }
  }

  // ----- Accounting -----

  /** Every byte carved from the arena is a cache or a slab, in use or idle. */
  lemma ArenaAccounted(h: Heap)
    requires Sound(h)
    ensures h.brk - h.base - 48 == 32 * (|h.list| + |h.idleCaches|) + 4128 * (|h.slabs| + |h.idleSlabs|)
  {
    CarvedBytes(h.carved, h.base, h.brk);
    ListCardinality(h.list, h.caches.Keys);
  }

  /** A slab is on its own cache's available list or full list, never on both, and on no other cache's. */
  lemma SlabOnOneList(h: Heap, x: int, c: int)
    requires Sound(h) && x in h.slabs && c in h.caches
    ensures x in h.caches[c].avail <==> c == h.slabs[x].owner && h.slabs[x].free != []
    ensures x in h.caches[c].full <==> c == h.slabs[x].owner && h.slabs[x].free == []
    ensures x !in h.idleSlabs
  {
    assert x in h.caches[c].avail <==> HasRoom(h.slabs, x, c);
    assert x in h.caches[c].full <==> IsFull(h.slabs, x, c);
  }

  ghost function LiveIn(h: Heap, x: int): set<int> {
    set p | p in h.live && h.live[p].slab == x
  }

  /** allocated_objects is the number of live objects in the slab. */
  lemma LiveInCount(h: Heap, x: int)
    requires Sound(h) && x in h.slabs
    ensures |LiveIn(h, x)| == h.slabs[x].Max() - |h.slabs[x].free|
  {
    var free, n := h.slabs[x].free, h.slabs[x].Max();
    assert SlabOk(h.slabs[x]);
    UsedSlotsCount(free, n);
    var at := map p | p in h.live :: h.live[p].slot;
    forall p | p in LiveIn(h, x) ensures at[p] in UsedSlots(free, n) {
      assert Placed(h.slabs, p, h.live[p]);
    }
    forall p, q | p in LiveIn(h, x) && q in LiveIn(h, x) && p != q ensures at[p] != at[q] {
      assert Placed(h.slabs, p, h.live[p]) && Placed(h.slabs, q, h.live[q]);
    }
    forall k | k in UsedSlots(free, n) ensures exists p :: p in LiveIn(h, x) && at[p] == k {
      assert Accounted(h.slabs, h.live, x, k);
      assert SlotAddr(x, h.slabs[x].size, k) in LiveIn(h, x);
    }
    SameCount(LiveIn(h, x), UsedSlots(free, n), at);
  }

  /** An available slab holds 1 to max-1 live objects, a full one exactly max. */
  lemma Occupancy(h: Heap, c: int, x: int)
    requires Inv(h) && c in h.caches && (x in h.caches[c].avail || x in h.caches[c].full)
    ensures x in h.slabs && ValidSize(h.slabs[x].size)
    ensures x in h.caches[c].avail ==> 1 <= |LiveIn(h, x)| <= h.slabs[x].Max() - 1
    ensures x in h.caches[c].full ==> |LiveIn(h, x)| == h.slabs[x].Max()
  {
    assert x in h.caches[c].avail <==> HasRoom(h.slabs, x, c);
    assert x in h.caches[c].full <==> IsFull(h.slabs, x, c);
    LiveInCount(h, x);
  }

  lemma NoneLiveNoSlab(h: Heap, x: int)
    requires Sound(h) && x in h.slabs && h.live == map[]
    ensures |h.slabs[x].free| == h.slabs[x].Max()
  {
    LiveInCount(h, x);
    assert LiveIn(h, x) == {};
  }

  /** With no object live, every slab ever carved is idle, and every cache still listed is without slabs. */
  lemma AllIdleWhenNoneLive(h: Heap)
    requires Inv(h) && h.live == map[]
    ensures h.slabs == map[]
    ensures |h.idleSlabs| == Count(h.carved, SlabRecord)
    ensures forall x :: Record(x, SlabRecord) in h.carved <==> x in h.idleSlabs
  {
    forall x ensures x !in h.slabs {
      if x in h.slabs {
        NoneLiveNoSlab(h, x);
        assert false;
      }
    }
    assert h.slabs.Keys == {};
  }

  // ----- When malloc fails -----

  /** The state malloc has to find a slab in, once the cache exists. */
  predicate NoSlabLeft(h: Heap, extra: int) {
    h.idleSlabs == [] && h.end < h.brk + extra + 4128
  }

  /**
   A small malloc fails exactly when its class has no available slab and the cache, or then the slab, can come
   neither from an idle list nor from what is left of the arena.
   */
  lemma MallocFailsIff(h: Heap, len: int)
    requires Inv(h) && 0 <= len <= SLAB_SIZE
    ensures var size := if len < 8 then 8 else len;
      MallocStep(h, len).1 == NULL <==>
        if exists c :: c in h.caches && h.caches[c].size == size
        then (forall c :: c in h.caches && h.caches[c].size == size ==> h.caches[c].avail == []) && NoSlabLeft(h, 0)
        else if h.idleCaches != [] then NoSlabLeft(h, 0)
        else h.end < h.brk + 32 || NoSlabLeft(h, 32)
  {
    CachesNotNull(h);
    var c := FindCache(h.list, h.caches, ObjectSize(len));
    if c != NULL {
      assert c in h.caches && h.caches[c].size == ObjectSize(len);
      assert forall d :: d in h.caches && h.caches[d].size == ObjectSize(len) ==> d == c;
      TakeFromRefines(h, c, len);
      RecordsNotNull(h);
    } else {
      assert forall d :: d in h.caches ==> d in h.list;
      MallocNewCache(h, len);
    }
  }

  lemma MallocNewCache(h: Heap, len: int)
    requires Sound(h) && 0 <= len <= SLAB_SIZE
    requires forall c :: c in h.caches ==> h.caches[c].size != ObjectSize(len)
    ensures MallocStep(h, len).1 == NULL <==>
      if h.idleCaches != [] then NoSlabLeft(h, 0)
      else h.end < h.brk + CACHE_BYTES || NoSlabLeft(h, CACHE_BYTES)
  {
    RecordsNotNull(h);
    NewCacheTaken(h, ObjectSize(len));
    var (h1, c) := WithCache(h, ObjectSize(len));
    if c != NULL {
      TakeFromRefines(h1, c, len);
      RecordsNotNull(h1);
    }
  }

  /** An idle slab serves any object size for which a cache exists or can be made. */
  lemma IdleSlabServesAnySize(h: Heap, len: int)
    requires Inv(h) && 0 <= len <= SLAB_SIZE && h.idleSlabs != []
    requires (exists c :: c in h.caches && h.caches[c].size == if len < 8 then 8 else len) || CacheSource(h) != NULL
    ensures MallocStep(h, len).1 != NULL
  {
    MallocFailsIff(h, len);
    RecordsNotNull(h);
  }

  // ----- Runs -----

  datatype Op = Malloc(len: int) | Free(p: int)

  predicate Legal(h: Heap, op: Op) {
    match op
    case Malloc(len) => 0 <= len <= SLAB_SIZE
    case Free(p) => InDomain(h, p)
  }

  ghost function Step(h: Heap, op: Op): (h': Heap)
    requires Inv(h) && Legal(h, op)
    ensures Inv(h')
  {
    match op
    case Malloc(len) =>
      MallocKeepsInv(h, len);
      MallocStep(h, len).0
    case Free(p) =>
      FreeKeepsInv(h, p);
      FreeStep(h, p)
  }

  ghost predicate LegalRun(h: Heap, ops: seq<Op>)
    requires Inv(h)
    decreases |ops|
  {
    ops == [] || (Legal(h, ops[0]) && LegalRun(Step(h, ops[0]), ops[1..]))
  }

  ghost function Run(h: Heap, ops: seq<Op>): (h': Heap)
    requires Inv(h) && LegalRun(h, ops)
    ensures Inv(h')
    decreases |ops|
  {
    if ops == [] then h else Run(Step(h, ops[0]), ops[1..])
  }

  /** heap_init's empty heap. */
  function Empty(base: int, size: int): Heap {
    Heap(base, base + size, base + HEAP_HEADER, [], [], [], [], map[], map[], map[])
  }

  lemma EmptyInv(base: int, size: int)
    requires 0 < base && HEAP_HEADER <= size
    ensures Inv(Empty(base, size))
  {
  }
}
