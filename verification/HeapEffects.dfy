/** What malloc takes and free gives back: slot sizes, records and addresses, written out. */
module HeapEffects {
  import opened Machine
  import opened Lists
  import opened HeapSpec
  import opened HeapInvariants
  import opened HeapTheorems
  import opened HeapSafety

  // ----- Slots -----

  /** A slab has as many slots as fit into its 4096 bytes, one after the other behind its 32-byte header. */
  lemma SlabHoldsMost(s: Slab, x: int, k: nat)
    requires ValidSize(s.size)
    ensures s.Max() * s.size <= 4096 < (s.Max() + 1) * s.size
    ensures SlotAddr(x, s.size, 0) == x + 32 && SlotAddr(x, s.size, k + 1) == SlotAddr(x, s.size, k) + s.size
  {
    MaxBounds(s.size);
  }

  /** The slot malloc hands out has the size of the request, raised to 8. */
  lemma MallocSlotExact(h: Heap, len: int)
    requires Inv(h) && 0 <= len <= 4096 && MallocStep(h, len).1 != NULL
    ensures var (h', p) := MallocStep(h, len);
      && p in h'.live && h'.live[p].slab in h'.slabs
      && h'.slabs[h'.live[p].slab].size == if len < 8 then 8 else len
  {
    MallocRefinesMap(h, len);
  }

  // ----- What malloc takes -----

  /** No cache for the size of the request. */
  ghost predicate NeedsCache(h: Heap, len: int) {
    forall c :: c in h.caches ==> h.caches[c].size != if len < 8 then 8 else len
  }

  /** No slab with a free slot of that size. */
  ghost predicate NeedsSlab(h: Heap, len: int) {
    forall c :: c in h.caches && (h.caches[c].size == if len < 8 then 8 else len) ==> h.caches[c].avail == []
  }

  /**
   A successful malloc takes a cache record only when its class has none, and a slab record only when its class has
   no free slot; each from the front of the idle list, and from the arena when that is empty.  The first object of a
   slab taken lies right behind its header.
   */
  lemma MallocTakes(h: Heap, len: int)
    requires Inv(h) && 0 <= len <= 4096 && MallocStep(h, len).1 != NULL
    ensures var (h', p) := MallocStep(h, len);
      var fromArena := (if NeedsCache(h, len) && h.idleCaches == [] then 32 else 0)
        + (if NeedsSlab(h, len) && h.idleSlabs == [] then 4128 else 0);
      && h'.brk == h.brk + fromArena
      && h'.idleCaches == (if NeedsCache(h, len) && h.idleCaches != [] then h.idleCaches[1..] else h.idleCaches)
      && h'.idleSlabs == (if NeedsSlab(h, len) && h.idleSlabs != [] then h.idleSlabs[1..] else h.idleSlabs)
      && (NeedsSlab(h, len) ==> p == (if h.idleSlabs != [] then h.idleSlabs[0] else h'.brk - 4128) + 32)
  {
    var size := ObjectSize(len);
    CachesNotNull(h);
    var c := FindCache(h.list, h.caches, size);
    if c != NULL {
      FoundCacheUsed(h, size, c);
      OneCacheOfSize(h, c);
      TakeFromTakes(h, c, len);
    } else {
      CachesListed(h);
      NewCacheTaken(h, size);
      var (h1, c1) := WithCache(h, size);
      OneCacheOfSize(h1, c1);
      TakeFromTakes(h1, c1, len);
    }
  }

  lemma OneCacheOfSize(h: Heap, c: int)
    requires Sound(h) && c in h.caches
    ensures forall d :: d in h.caches && h.caches[d].size == h.caches[c].size ==> d == c
  {
  }

  lemma TakeFromTakes(h: Heap, c: int, len: int)
    requires Sound(h) && c in h.caches && len <= h.caches[c].size && TakeFrom(h, c, len).1 != NULL
    ensures var (h', p) := TakeFrom(h, c, len);
      var noRoom := h.caches[c].avail == [];
      && h'.idleCaches == h.idleCaches
      && h'.brk == h.brk + (if noRoom && h.idleSlabs == [] then 4128 else 0)
      && h'.idleSlabs == (if noRoom && h.idleSlabs != [] then h.idleSlabs[1..] else h.idleSlabs)
      && (noRoom ==> p == (if h.idleSlabs != [] then h.idleSlabs[0] else h.brk) + 32)
  {
    if h.caches[c].avail == [] {
      AddSlabSound(h, c);
      FreshSlabOk(c, h.caches[c].size);
      MaxBounds(h.caches[c].size);
    }
  }

  // ----- What free gives back -----

  /** The slot malloc will hand out next from a slab with free slots stays the same. */
  lemma InsertedBehindFirst(free: seq<nat>, k: nat)
    requires free != []
    ensures Inserted(free, k)[0] == free[0]
  {
  }

  /** A slab in use holds a live object. */
  lemma SlabInUse(h: Heap, x: int)
    requires Inv(h) && x in h.slabs
    ensures exists q :: q in h.live && h.live[q].slab == x
  {
    LiveInCount(h, x);
    var q := Some(LiveIn(h, x));
  }

  lemma Some<T>(s: set<T>) returns (x: T)
    requires |s| > 0
    ensures x in s
  {
    x :| x in s;
  }

  /**
   free keeps a slab exactly while it holds another live object, and its cache exactly while that has a slab left;
   what is not kept goes to the end of its idle list, and nothing goes back to the arena.
   */
  lemma FreeGivesBack(h: Heap, p: int)
    requires Inv(h) && InDomain(h, p)
    ensures var x := h.live[p].slab;
      x in h.slabs && h.slabs[x].owner in h.caches
    ensures var h', x := FreeStep(h, p), h.live[p].slab;
      var c := h.slabs[x].owner;
      && (x in h'.slabs <==> exists q :: q in h.live && q != p && h.live[q].slab == x)
      && (c in h'.caches <==> exists y :: y in h'.slabs && h'.slabs[y].owner == c)
      && h'.idleSlabs == (if x in h'.slabs then h.idleSlabs else h.idleSlabs + [x])
      && h'.idleCaches == (if c in h'.caches then h.idleCaches else h.idleCaches + [c])
      && h'.brk == h.brk
  {
    PushSound(h, p);
    FreeKeepsInv(h, p);
    PushKeeps(h, p);
    SettleGivesBack(Push(h, p), h.live[p].slab);
    SlabKeptIff(h, p);
    hide Sound, Inv, InDomain, Push, Settle;
  }

  lemma SlabKeptIff(h: Heap, p: int)
    requires Inv(h) && InDomain(h, p)
    ensures var x := h.live[p].slab;
      x in FreeStep(h, p).slabs <==> exists q :: q in h.live && q != p && h.live[q].slab == x
  {
    FreeKeepsInv(h, p);
    var x, h' := h.live[p].slab, FreeStep(h, p);
    hide InDomain, FreeStep;
    if x in h'.slabs {
      SlabInUse(h', x);
      var q :| q in h'.live && h'.live[q].slab == x;
      assert q in h.live && q != p && h.live[q].slab == x;
    }
    if q :| q in h.live && q != p && h.live[q].slab == x {
      assert q in h'.live && Placed(h'.slabs, q, h'.live[q]);
    }
  }

  lemma PushKeeps(h: Heap, p: int)
    requires Sound(h) && InDomain(h, p)
    ensures PushReady(h, p) && h.live[p].slab in h.slabs && h.slabs[h.live[p].slab].owner in h.caches
    ensures var h1, x := Push(h, p), h.live[p].slab;
      && x in h1.slabs && h1.slabs[x].owner == h.slabs[x].owner && h1.caches.Keys == h.caches.Keys
      && h1.idleSlabs == h.idleSlabs && h1.idleCaches == h.idleCaches && h1.brk == h.brk
  {
    PushEnabled(h, p);
  }

  lemma SettleGivesBack(h: Heap, x: int)
    requires Sound(h) && x in h.slabs
    ensures h.slabs[x].owner in h.caches
    ensures var h', c := Settle(h, x), h.slabs[x].owner;
      && (c in h'.caches <==> exists y :: y in h'.slabs && h'.slabs[y].owner == c)
      && h'.idleSlabs == (if x in h'.slabs then h.idleSlabs else h.idleSlabs + [x])
      && h'.idleCaches == (if c in h'.caches then h.idleCaches else h.idleCaches + [c])
      && h'.brk == h.brk
  {
    SlabWithinMax(h, x);
    if |h.slabs[x].free| == h.slabs[x].Max() {
      RetireSlabSound(h, x);
      var h1, c := RetireSlab(h, x), h.slabs[x].owner;
      if h1.caches[c].avail != [] {
        var y := h1.caches[c].avail[0];
        assert y in h1.caches[c].avail;
        assert HasRoom(h1.slabs, y, c);
      } else if h1.caches[c].full != [] {
        var y := h1.caches[c].full[0];
        assert y in h1.caches[c].full;
        assert IsFull(h1.slabs, y, c);
      } else {
        RetireCacheSound(h1, c);
      }
    }
  }

  // ----- Two short programs -----

  /** The first object of a cache without slabs leaves the other slots of the new slab, in order. */
  lemma FirstOfNewSlab(h: Heap, c: int, len: int)
    requires Sound(h) && c in h.caches && len <= h.caches[c].size && h.caches[c].avail == [] && SlabSource(h) != NULL
    requires 2 * h.caches[c].size <= 4096
    ensures var (h', p) := TakeFrom(h, c, len);
      var x := SlabSource(h);
      && p == x + 32 && c in h'.caches && h'.caches[c] == h.caches[c].(avail := [x])
      && p in h'.live && h'.live[p].slab == x && h'.live == h.live[p := h'.live[p]]
      && x in h'.slabs && h'.slabs[x].size == h.caches[c].size && h'.slabs[x].pristine
      && h'.slabs[x].free != [] && h'.slabs[x].free[0] == 1
  {
    AddSlabSound(h, c);
    FreshSlabOk(c, h.caches[c].size);
    TwoSlots(h.caches[c].size);
    hide Sound;
  }

  lemma TwoSlots(size: int)
    requires ValidSize(size) && 2 * size <= 4096
    ensures SLAB_SIZE / size >= 2
  {
  }

  /** One object of a cache for `slot` bytes, at the start of the first slab of the arena at base. */
  ghost predicate OneObject(h: Heap, p: int, base: int, slot: int) {
    var c, x := base + 48, base + 80;
    && Inv(h) && p == base + 112 && h.live.Keys == {p} && h.live[p].slab == x
    && h.idleCaches == [] && h.idleSlabs == []
    && c in h.caches && h.caches[c].size == slot && h.caches[c].avail == [x]
    && x in h.slabs && h.slabs[x].owner == c && h.slabs[x].size == slot && h.slabs[x].pristine
    && h.slabs[x].free != [] && h.slabs[x].free[0] == 1
  }

  /**
   On an arena from which nothing has been carved, the first cache lies behind the heap's header, and nothing else is
   there.
   */
  lemma FirstCache(h: Heap, slot: int)
    requires Inv(h) && h.carved == [] && h.end - h.base >= 4208 && ValidSize(slot)
    ensures h.base > 0
    ensures var h0, c := AddCache(h, slot), h.base + 48;
      && WithCache(h, slot) == (h0, c) && Sound(h0)
      && c in h0.caches && h0.caches[c] == Cache(slot, [], []) && h0.live == map[]
      && SlabSource(h0) == h.base + 80 && h0.idleCaches == [] && h0.idleSlabs == []
  {
    NothingCarved(h);
    NewCacheTaken(h, slot);
  }

  lemma NothingCarved(h: Heap)
    requires Inv(h) && h.carved == []
    ensures h.brk == h.base + 48 && h.idleCaches == [] && h.idleSlabs == []
    ensures h.caches == map[] && h.slabs == map[] && h.live == map[]
  {
    assert forall c :: c in h.caches ==> Record(c, CacheRecord) in h.carved;
    assert forall x :: x in h.slabs ==> Record(x, SlabRecord) in h.carved;
    assert forall p :: p in h.live ==> Placed(h.slabs, p, h.live[p]);
  }

  lemma FirstFromNothing(h: Heap, len: int)
    requires Inv(h) && h.carved == [] && h.end - h.base >= 4208 && 0 <= len <= 2048
    ensures var (h', p) := MallocStep(h, len);
      OneObject(h', p, h.base, if len < 8 then 8 else len)
  {
    var slot := ObjectSize(len);
    hide Sound, Inv, AddCache, SlabSource, WithCache, TakeFrom;
    FirstCache(h, slot);
    MallocKeepsInv(h, len);
    var h0, c := AddCache(h, slot), h.base + 48;
    FirstOfNewSlab(h0, c, len);
    TakeFromTakes(h0, c, len);
    InvSound(h);
    var (h', p) := MallocStep(h, len);
    assert (h', p) == TakeFrom(h0, c, len);
    InvSound(h');
    OwnerOfListed(h', c, h.base + 80);
  }

  lemma InvSound(h: Heap)
    requires Inv(h)
    ensures Sound(h)
  {
  }

  lemma OwnerOfListed(h: Heap, c: int, x: int)
    requires Sound(h) && c in h.caches && x in h.caches[c].avail
    ensures x in h.slabs && h.slabs[x].owner == c
  {
    assert HasRoom(h.slabs, x, c);
  }

  /** A cache with room serves the next object of its first slab. */
  lemma NextOfSlab(h: Heap, c: int, len: int)
    requires Inv(h) && 0 <= len <= 4096
    requires c in h.caches && h.caches[c].size == ObjectSize(len) && h.caches[c].avail != []
    ensures var x := h.caches[c].avail[0];
      x in h.slabs && h.slabs[x].free != [] && MallocStep(h, len).1 == SlotAddr(x, h.slabs[x].size, h.slabs[x].free[0])
  {
    FoundCacheUsed(h, ObjectSize(len), c);
    PopEnabled(h, c);
    hide Sound, WithCache;
  }

  /** Objects of up to half a slab come one behind the other: two requests on a heap just set up. */
  lemma TwoObjectsFromNothing(h: Heap, len: int)
    requires Inv(h) && h.carved == [] && h.end - h.base >= 4208 && 0 <= len <= 2048
    ensures var slot := if len < 8 then 8 else len;
      var (h1, p) := MallocStep(h, len);
      p == h.base + 112 && MallocStep(h1, len).1 == h.base + 112 + slot
  {
    hide Sound, Inv, MallocStep;
    InvSound(h);
    FirstFromNothing(h, len);
    var h1 := MallocStep(h, len).0;
    InvSound(h1);
    NextOfSlab(h1, h.base + 48, len);
  }

  /** The one object given back leaves its slab and its cache idle. */
  lemma OnlyObjectFreed(h: Heap, p: int, base: int, slot: int)
    requires OneObject(h, p, base, slot)
    ensures InDomain(h, p)
    ensures var h' := FreeStep(h, p);
      Inv(h') && h'.slabs == map[] && h'.idleSlabs == [base + 80] && h'.idleCaches == [base + 48]
  {
    FreeGivesBack(h, p);
    FreeKeepsInv(h, p);
    var h' := FreeStep(h, p);
    hide Sound, Inv, FreeStep;
    assert h'.live == map[];
    AllIdleWhenNoneLive(h');
  }

  /**
   In an arena with room for one cache and one slab, a request of another size is served from what free gave back:
   the slab and the cache both change their size.
   */
  lemma RecycledForOtherSize(h: Heap)
    requires Inv(h) && h.carved == [] && h.end - h.base == 4208
    ensures var (h1, p) := MallocStep(h, 8);
      && InDomain(h1, p) && p == h.base + 112
      && MallocStep(FreeStep(h1, p), 16).1 == h.base + 112
  {
    hide Sound, Inv, MallocStep, FreeStep, InDomain;
    InvSound(h);
    FirstFromNothing(h, 8);
    var (h1, p) := MallocStep(h, 8);
    OnlyObjectFreed(h1, p, h.base, 8);
    InvSound(h1);
    InvSound(FreeStep(h1, p));
    ServedFromIdle(FreeStep(h1, p), 16);
  }

  // ----- Which object comes next -----

  /** After free, the first available slab of the cache and its first free slot. */
  lemma FrontAfterFree(h: Heap, p: int)
    requires Inv(h) && InDomain(h, p) && h.live[p].slab in h.slabs && h.slabs[h.live[p].slab].owner in h.caches
    ensures Inv(FreeStep(h, p))
    ensures var h', x := FreeStep(h, p), h.live[p].slab;
      var c := h.slabs[x].owner;
      var avail := h.caches[c].avail;
      && (avail != [] && avail[0] in h.slabs && avail[0] in h'.slabs ==>
           && c in h'.caches && h'.caches[c].avail != [] && h'.caches[c].avail[0] == avail[0]
           && h.slabs[avail[0]].free != [] && h'.slabs[avail[0]].free != []
           && h'.slabs[avail[0]].free[0] == h.slabs[avail[0]].free[0]
           && h'.slabs[avail[0]].size == h.slabs[avail[0]].size && h'.caches[c].size == h.caches[c].size)
      && (avail == [] && x in h'.slabs ==>
           && c in h'.caches && h'.caches[c].avail == [x] && h'.slabs[x].free == [h.live[p].slot]
           && h'.slabs[x].size == h.slabs[x].size && h'.caches[c].size == h.caches[c].size)
  {
    PushSound(h, p);
    FreeKeepsInv(h, p);
    FrontAfterPush(h, p);
    FrontAfterSettle(Push(h, p), h.live[p].slab);
  }

  lemma FrontAfterPush(h: Heap, p: int)
    requires Sound(h) && InDomain(h, p) && h.slabs[h.live[p].slab].owner in h.caches
    ensures PushReady(h, p)
    ensures var h', x := Push(h, p), h.live[p].slab;
      var c := h.slabs[x].owner;
      var avail := h.caches[c].avail;
      && c in h'.caches && h'.caches[c].size == h.caches[c].size && x in h'.slabs && h'.slabs[x].owner == c
      && h'.slabs[x].size == h.slabs[x].size
      && (avail != [] ==>
           && avail[0] in h.slabs && h.slabs[avail[0]].free != []
           && h'.caches[c].avail != [] && h'.caches[c].avail[0] == avail[0]
           && avail[0] in h'.slabs && h'.slabs[avail[0]].free != []
           && h'.slabs[avail[0]].free[0] == h.slabs[avail[0]].free[0]
           && h'.slabs[avail[0]].size == h.slabs[avail[0]].size)
      && (avail == [] ==> h'.caches[c].avail == [x] && h'.slabs[x].free == [h.live[p].slot])
  {
    PushEnabled(h, p);
    var x := h.live[p].slab;
    var c := h.slabs[x].owner;
    if h.caches[c].avail != [] {
      PopEnabled(h, c);
    }
    assert x in h.caches[c].avail <==> HasRoom(h.slabs, x, c);
  }

  lemma FrontAfterSettle(h: Heap, x: int)
    requires Sound(h) && x in h.slabs && h.slabs[x].owner in h.caches
    ensures var h', c := Settle(h, x), h.slabs[x].owner;
      var avail := h.caches[c].avail;
      && (x in h'.slabs ==> h' == h)
      && (avail != [] && avail[0] in h'.slabs ==>
           && c in h'.caches && h'.caches[c].size == h.caches[c].size
           && h'.caches[c].avail != [] && h'.caches[c].avail[0] == avail[0]
           && h'.slabs[avail[0]] == h.slabs[avail[0]])
  {
    SlabWithinMax(h, x);
    if |h.slabs[x].free| == h.slabs[x].Max() {
      RetireSlabSound(h, x);
    }
  }

  /**
   free does not change which object malloc hands out next for the size of the object given back, unless there was
   no slab with a free slot; then it is the object given back.
   */
  lemma NextObjectAfterFree(h: Heap, p: int, len: int)
    requires Inv(h) && InDomain(h, p) && h.live[p].slab in h.slabs && h.slabs[h.live[p].slab].owner in h.caches
    requires 0 <= len <= 4096
    requires h.caches[h.slabs[h.live[p].slab].owner].size == if len < 8 then 8 else len
    ensures Inv(FreeStep(h, p))
    ensures var h', x := FreeStep(h, p), h.live[p].slab;
      var avail := h.caches[h.slabs[x].owner].avail;
      && (avail != [] && avail[0] in h'.slabs ==> MallocStep(h', len).1 == MallocStep(h, len).1)
      && (avail == [] && x in h'.slabs ==> MallocStep(h', len).1 == p)
  {
    FrontAfterFree(h, p);
    var h', x := FreeStep(h, p), h.live[p].slab;
    var c := h.slabs[x].owner;
    assert Placed(h.slabs, p, h.live[p]);
    hide Sound, MallocStep, FreeStep, InDomain;
    if h.caches[c].avail != [] {
      NextOfSlab(h, c, len);
    }
    if c in h'.caches && h'.caches[c].avail != [] && h'.caches[c].size == h.caches[c].size {
      NextOfSlab(h', c, len);
    }
  }

  lemma ServedFromIdle(h: Heap, len: int)
    requires Inv(h) && 0 <= len <= 4096 && h.slabs == map[] && h.idleSlabs != [] && h.idleCaches != []
    ensures MallocStep(h, len).1 == h.idleSlabs[0] + 32
  {
    NoSlabNoRoom(h, len);
    MallocFailsIff(h, len);
    MallocTakes(h, len);
  }

  lemma NoSlabNoRoom(h: Heap, len: int)
    requires Sound(h) && h.slabs == map[]
    ensures NeedsSlab(h, len)
  {
    forall c | c in h.caches ensures h.caches[c].avail == [] {
      if h.caches[c].avail != [] {
        PopEnabled(h, c);
      }
    }
  }
}
