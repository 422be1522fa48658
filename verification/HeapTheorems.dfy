/** malloc and free on the slab heap as whole steps, and what every in-domain run keeps. */
module HeapTheorems {
  import opened Machine
  import opened Lists
  import opened HeapSpec
  import opened HeapInvariants

  /** The first cache on the list that serves `size`, or NULL. */
  function FindCache(list: seq<int>, caches: map<int, Cache>, size: int): (c: int)
    requires forall d {:trigger d in list} :: d in list ==> d in caches && d != NULL
    ensures c != NULL ==> c in list && caches[c].size == size
    ensures c == NULL ==> forall d :: d in list ==> caches[d].size != size
  {
    if list == [] then NULL
    else
      var c := list[0];
      assert c in list;
      assert forall d {:trigger d in list[1..]} :: d in list[1..] ==> d in list;
      if caches[c].size == size then c else FindCache(list[1..], caches, size)
  }

  /** Objects are at least 8 bytes, so that a free one can hold a pointer. */
  function ObjectSize(len: int): int {
    if len < MIN_OBJECT then MIN_OBJECT else len
  }

  lemma CachesNotNull(h: Heap)
    requires Sound(h)
    ensures forall c {:trigger c in h.list} :: c in h.list ==> c in h.caches && c != NULL
  {
    forall c {:trigger c in h.list} | c in h.list ensures c in h.caches && c != NULL {
      RecordInArena(h.carved, h.base, h.brk, Record(c, CacheRecord));
    }
  }

  predicate SameArena(h: Heap, h': Heap) {
    h'.base == h.base && h'.end == h.end
  }

  /** The cache that will serve `size`, made if there is none; NULL when it cannot be made. */
  ghost function WithCache(h: Heap, size: int): (r: (Heap, int))
    requires Sound(h) && ValidSize(size)
    ensures Sound(r.0) && r.0.live == h.live && r.0.slabs == h.slabs && SameArena(h, r.0)
    ensures r.1 != NULL ==> r.1 in r.0.caches && r.0.caches[r.1].size == size
    ensures r.1 == NULL ==> r.0 == h
  {
    CachesNotNull(h);
    var c := FindCache(h.list, h.caches, size);
    if c != NULL then (h, c)
    else if CacheSource(h) == NULL then (h, NULL)
    else
      AddCacheMade(h, size);
      hide Sound, AddCache, CacheSource, ValidSize;
      (AddCache(h, size), CacheSource(h))
  }

  lemma AddCacheMade(h: Heap, size: int)
    requires Sound(h) && ValidSize(size) && CacheSource(h) != NULL
    requires forall c :: c in h.list ==> c in h.caches && h.caches[c].size != size
    ensures var h', c := AddCache(h, size), CacheSource(h);
      && Sound(h') && h'.live == h.live && h'.slabs == h.slabs && SameArena(h, h')
      && c in h'.caches && h'.caches[c].size == size
  {
    CachesListed(h);
    AddCacheSound(h, size);
  }

  lemma CachesListed(h: Heap)
    requires Sound(h)
    ensures forall c :: c in h.caches ==> c in h.list
  {
  }

  /** Takes a slot from cache c, making a slab when it has none available. */
  ghost function TakeFrom(h: Heap, c: int, len: int): (r: (Heap, int))
    requires Sound(h) && c in h.caches && len <= h.caches[c].size
    ensures Sound(r.0) && SameArena(h, r.0)
  {
    if h.caches[c].avail != [] then
      PopSound(h, c, len);
      Pop(h, c, len)
    else if SlabSource(h) == NULL then (h, NULL)
    else
      AddSlabSound(h, c);
      var h1 := AddSlab(h, c);
      PopSound(h1, c, len);
      Pop(h1, c, len)
  }

  /** malloc for requests of at most a slab. */
  ghost function MallocStep(h: Heap, len: int): (r: (Heap, int))
    requires Sound(h) && 0 <= len <= SLAB_SIZE
    ensures Sound(r.0) && SameArena(h, r.0)
  {
    var (h1, c) := WithCache(h, ObjectSize(len));
    if c == NULL then (h, NULL) else TakeFrom(h1, c, len)
  }

  /**
   The frees the code gets right: the slab still has its first chain, or it is full and last on its cache's
   full list.
   */
  predicate InDomain(h: Heap, p: int) {
    && p in h.live && h.live[p].slab in h.slabs
    && var slab := h.slabs[h.live[p].slab];
      if slab.free != [] then slab.pristine
      else
        && slab.owner in h.caches
        && var full := h.caches[slab.owner].full;
          full != [] && full[|full| - 1] == h.live[p].slab
  }

  /** A slab without objects is retired, and then its cache if that has no slab left. */
  ghost function Settle(h: Heap, x: int): (h': Heap)
    requires Sound(h) && x in h.slabs
    ensures Sound(h') && h'.live == h.live && SameArena(h, h')
  {
    SlabWithinMax(h, x);
    if |h.slabs[x].free| < h.slabs[x].Max() then h
    else
      RetireSlabSound(h, x);
      var h1, c := RetireSlab(h, x), h.slabs[x].owner;
      if h1.caches[c].avail != [] || h1.caches[c].full != [] then h1
      else
        RetireCacheSound(h1, c);
        RetireCache(h1, c)
  }

  lemma SlabWithinMax(h: Heap, x: int)
    requires SlabsOk(h.caches, h.slabs) && x in h.slabs
    ensures ValidSize(h.slabs[x].size) && |h.slabs[x].free| <= h.slabs[x].Max() && h.slabs[x].owner in h.caches
  {
  }

  /** free for pointers of the slab heap. */
  ghost function FreeStep(h: Heap, p: int): (h': Heap)
    requires Sound(h) && InDomain(h, p)
    ensures Sound(h') && h'.live == h.live - {p} && SameArena(h, h')
  {
    PushSound(h, p);
    Settle(Push(h, p), h.live[p].slab)
  }

  lemma PushSound(h: Heap, p: int)
    requires Sound(h) && InDomain(h, p)
    ensures PushReady(h, p) && Sound(Push(h, p))
    ensures h.live[p].slab in Push(h, p).slabs && Push(h, p).live == h.live - {p}
  {
    PushEnabled(h, p);
    if h.slabs[h.live[p].slab].free != [] {
      PushPristineSound(h, p);
    } else {
      PushFullSound(h, p);
    }
  }

  // ----- The invariant over every step and run -----

  /** Every slab but x holds an object. */
  ghost predicate NoneEmptyBut(slabs: map<int, Slab>, x: int) {
    forall y :: y in slabs ==> ValidSize(slabs[y].size) && (y == x || |slabs[y].free| < slabs[y].Max())
  }

  lemma PopKeepsInv(h: Heap, c: int, len: int)
    requires Sound(h) && c in h.caches && h.caches[c].avail != [] && len <= h.caches[c].size
    requires NoneEmptyBut(h.slabs, h.caches[c].avail[0])
    ensures PopReady(h, c) && Inv(Pop(h, c, len).0)
  {
    PopSound(h, c, len);
    var x := h.caches[c].avail[0];
    assert SlabOk(h.slabs[x]);
    CacheCounted(h, c);
  }

  lemma CacheCounted(h: Heap, c: int)
    requires RecordsListed(h.caches.Keys, h.idleCaches, h.carved, CacheRecord) && c in h.caches
    ensures Count(h.carved, CacheRecord) > 0
  {
    assert |h.caches.Keys| > 0;
  }

  lemma AddSlabNoneEmpty(h: Heap, c: int)
    requires NoneEmpty(h.slabs) && c in h.caches && ValidSize(h.caches[c].size)
    ensures NoneEmptyBut(AddSlab(h, c).slabs, SlabSource(h))
  {
  }

  lemma WithCacheKeepsInv(h: Heap, size: int)
    requires Inv(h) && ValidSize(size)
    ensures Inv(WithCache(h, size).0)
  {
    var (h1, c) := WithCache(h, size);
    if c != NULL {
      CacheCounted(h1, c);
    }
  }

  lemma TakeFromKeepsInv(h: Heap, c: int, len: int)
    requires Inv(h) && c in h.caches && len <= h.caches[c].size
    ensures Inv(TakeFrom(h, c, len).0)
  {
    if h.caches[c].avail != [] {
      PopKeepsInv(h, c, len);
    } else if SlabSource(h) != NULL {
      AddSlabSound(h, c);
      AddSlabNoneEmpty(h, c);
      PopKeepsInv(AddSlab(h, c), c, len);
    }
  }

  lemma MallocKeepsInv(h: Heap, len: int)
    requires Inv(h) && 0 <= len <= SLAB_SIZE
    ensures Inv(MallocStep(h, len).0)
  {
    WithCacheKeepsInv(h, ObjectSize(len));
    var (h1, c) := WithCache(h, ObjectSize(len));
    if c != NULL {
      TakeFromKeepsInv(h1, c, len);
    }
  }

  lemma PushNoneEmpty(h: Heap, p: int)
    requires PushReady(h, p) && NoneEmpty(h.slabs)
    ensures NoneEmptyBut(Push(h, p).slabs, h.live[p].slab)
    ensures Push(h, p).live == h.live - {p} && Push(h, p).carved == h.carved
  {
  }

  lemma SettleKeepsInv(h: Heap, x: int)
    requires Sound(h) && x in h.slabs && NoneEmptyBut(h.slabs, x) && Count(h.carved, CacheRecord) > 0
    ensures Inv(Settle(h, x))
  {
    SlabWithinMax(h, x);
    if |h.slabs[x].free| == h.slabs[x].Max() {
      RetireSlabSound(h, x);
    }
  }

  lemma FreeKeepsInv(h: Heap, p: int)
    requires Inv(h) && InDomain(h, p)
    ensures Inv(FreeStep(h, p))
  {
    PushSound(h, p);
    PushNoneEmpty(h, p);
    CacheCounted(h, h.slabs[h.live[p].slab].owner);
    SettleKeepsInv(Push(h, p), h.live[p].slab);
  }

  // ----- The cache list -----

  lemma NewCacheTaken(h: Heap, size: int)
    requires Sound(h) && ValidSize(size) && forall c :: c in h.caches ==> h.caches[c].size != size
    ensures CacheSource(h) == NULL ==> WithCache(h, size) == (h, NULL)
    ensures CacheSource(h) != NULL ==>
      var (h1, c) := WithCache(h, size);
      && h1 == AddCache(h, size) && c == CacheSource(h)
      && c in h1.caches && h1.caches[c].avail == []
  {
    CachesNotNull(h);
  }

  /** When the cache list is empty, a cache can be made: malloc never reads through a null first cache. */
  lemma FirstCacheNeverNull(h: Heap)
    requires Inv(h) && h.end - h.base >= HEAP_HEADER + CACHE_BYTES && h.list == []
    ensures CacheSource(h) != NULL
  {
    RecordsNotNull(h);
    if h.idleCaches == [] {
      assert forall c :: c in h.caches.Keys ==> c in h.list;
      assert h.caches.Keys == {};
      assert h.carved == [];
    }
  }

  /** Sizes are unique on the cache list, so finding a cache of the size is finding the one malloc uses. */
  lemma FoundCacheUsed(h: Heap, size: int, c: int)
    requires Sound(h) && ValidSize(size) && c in h.caches && h.caches[c].size == size
    ensures WithCache(h, size) == (h, c)
  {
    CachesNotNull(h);
    assert c in h.list;
    var d := FindCache(h.list, h.caches, size);
    assert d in h.caches;
  }
}
