/** The slab heap as the kernel runs it: cache and slab records relinked in place, free objects threaded together. */
module HeapMem {
  import opened Machine
  import opened Lists
  import opened Chains
  import opened HeapSpec
  import opened HeapInvariants
  import opened HeapTheorems
  import opened HeapRep
  import opened HeapRepSteps

  class KernelHeap {
    var idleCache: int                   // free_space_for_cache
    var idleSlab: int                    // free_space_for_slab
    var freeSpace: int                   // free_space
    var firstCache: int                  // first_cache
    var heapEnd: int                     // heap_end
    var cacheAt: map<int, CacheRec>      // memory read and written through cache pointers
    var slabAt: map<int, SlabRec>        // ... through slab pointers
    var word: map<int, int>              // ... through pointers to objects
    ghost var st: Heap

    ghost function Mem(): Memory
      reads this
    {
      Memory(idleCache, idleSlab, freeSpace, firstCache, heapEnd, cacheAt, slabAt, word)
    }

    ghost predicate Valid()
      reads this
    {
      Rep(Mem(), st) && Inv(st)
    }

    /** heap_init on an arena of `size` bytes at `base`. */
    constructor (base: int, size: int)
      requires 0 < base && HEAP_HEADER <= size
      ensures Valid() && st == Heap(base, base + size, base + HEAP_HEADER, [], [], [], [], map[], map[], map[])
    {
      idleCache, idleSlab, firstCache := NULL, NULL, NULL;
      freeSpace, heapEnd := base + HEAP_HEADER, base + size;
      cacheAt, slabAt, word := map[], map[], map[];
      st := Heap(base, base + size, base + HEAP_HEADER, [], [], [], [], map[], map[], map[]);
    }

    // ----- Walking lists -----

    method LastSlab(head: int, ghost s: seq<int>) returns (last: int)
      requires Linked(SlabNext(slabAt), s) && s != [] && head == s[0] && NonNull(s)
      ensures last == s[|s| - 1] && last in slabAt
    {
      last := head;
      ghost var i := 0;
      assert LinkAt(SlabNext(slabAt), s, 0);
      while slabAt[last].next != NULL
        invariant i < |s| && last == s[i] && last in slabAt && LinkAt(SlabNext(slabAt), s, i)
        decreases |s| - i
      {
        last := slabAt[last].next;
        i := i + 1;
        assert LinkAt(SlabNext(slabAt), s, i);
      }
    }

    method SlabBefore(head: int, x: int, ghost s: seq<int>, ghost i: nat) returns (prev: int)
      requires Linked(SlabNext(slabAt), s) && 0 < i < |s| && head == s[0] && x == s[i] && NoDup(s)
      ensures prev == s[i - 1] && prev in slabAt
    {
      prev := head;
      ghost var j := 0;
      assert LinkAt(SlabNext(slabAt), s, 0);
      while slabAt[prev].next != x
        invariant j < i && prev == s[j] && prev in slabAt && LinkAt(SlabNext(slabAt), s, j)
        decreases i - j
      {
        prev := slabAt[prev].next;
        j := j + 1;
        assert LinkAt(SlabNext(slabAt), s, j);
      }
      assert s[j + 1] == s[i];
    }

    method LastCache(head: int, ghost s: seq<int>) returns (last: int)
      requires Linked(CacheNext(cacheAt), s) && s != [] && head == s[0] && NonNull(s)
      ensures last == s[|s| - 1] && last in cacheAt
    {
      last := head;
      ghost var i := 0;
      assert LinkAt(CacheNext(cacheAt), s, 0);
      while cacheAt[last].next != NULL
        invariant i < |s| && last == s[i] && last in cacheAt && LinkAt(CacheNext(cacheAt), s, i)
        decreases |s| - i
      {
        last := cacheAt[last].next;
        i := i + 1;
        assert LinkAt(CacheNext(cacheAt), s, i);
      }
    }

    method CacheBefore(head: int, c: int, ghost s: seq<int>, ghost i: nat) returns (prev: int)
      requires Linked(CacheNext(cacheAt), s) && 0 < i < |s| && head == s[0] && c == s[i] && NoDup(s)
      ensures prev == s[i - 1] && prev in cacheAt
    {
      prev := head;
      ghost var j := 0;
      assert LinkAt(CacheNext(cacheAt), s, 0);
      while cacheAt[prev].next != c
        invariant j < i && prev == s[j] && prev in cacheAt && LinkAt(CacheNext(cacheAt), s, j)
        decreases i - j
      {
        prev := cacheAt[prev].next;
        j := j + 1;
        assert LinkAt(CacheNext(cacheAt), s, j);
      }
      assert s[j + 1] == s[i];
    }

    // ----- malloc -----

    /** _make_cache: an idle record, or the next 32 bytes of the arena; its fields set, not yet on the cache list. */
    method MakeCache(size: int) returns (cache: int)
      requires Rep(Mem(), st) && Sound(st)
      modifies this
      ensures cache == CacheSource(old(st))
      ensures cache == NULL ==> Mem() == old(Mem()) && st == old(st)
      ensures cache != NULL ==> st == TakeCache(old(st)) && Rep(Mem(), st)
      ensures cache != NULL ==> Mem() == old(Mem()).(idleCache := idleCache, freeSpace := freeSpace,
        cacheAt := old(cacheAt)[cache := CacheRec(NULL, size, NULL, NULL)])
    {
      RecordsNotNull(st);
      if idleCache != NULL {
        LinkedTail(CacheNext(cacheAt), st.idleCaches);
        cache := idleCache;
        idleCache := cacheAt[idleCache].next;
      } else {
        if freeSpace + CACHE_BYTES > heapEnd {
          return NULL;
        }
        cache := freeSpace;
        freeSpace := freeSpace + CACHE_BYTES;
      }
      cacheAt := cacheAt[cache := CacheRec(NULL, size, NULL, NULL)];
      TakeCacheRep(old(Mem()), st, cacheAt[cache]);
      st := TakeCache(st);
    }

    /** Walks the cache list to the cache for `size`, or to the last cache. */
    method SearchCaches(size: int) returns (cache: int)
      requires Rep(Mem(), st) && Sound(st) && st.list != []
      ensures cache in st.caches && cache in cacheAt && cacheAt[cache].size == st.caches[cache].size
      ensures st.caches[cache].size != size ==>
        cache == st.list[|st.list| - 1] && forall c :: c in st.caches ==> st.caches[c].size != size
    {
      assert firstCache == st.list[0];
      AllListed(st, Mem());
      CachesListed(st);
      hide Rep, Sound;
      cache := firstCache;
      ghost var j := 0;
      while cacheAt[cache].next != NULL && cacheAt[cache].size != size
        invariant j < |st.list| && cache == st.list[j] && Listed(Mem(), st, j)
        invariant forall i {:trigger st.list[i]} :: 0 <= i < j ==>
          st.list[i] in st.caches && st.caches[st.list[i]].size != size
        decreases |st.list| - j
      {
        cache := cacheAt[cache].next;
        j := j + 1;
        assert Listed(Mem(), st, j);
      }
      if st.caches[cache].size != size {
        assert j == |st.list| - 1;
        forall c | c in st.caches ensures st.caches[c].size != size {
          assert st.list[Index(st.list, c)] == c;
        }
      }
    }

    /** The first cache of an empty list. */
    method MakeFirstCache(size: int)
      requires Valid() && ValidSize(size) && st.end - st.base >= HEAP_HEADER + CACHE_BYTES && st.list == []
      modifies this
      ensures Rep(Mem(), st) && st == AddCache(old(st), size) && CacheSource(old(st)) != NULL
      ensures slabAt == old(slabAt) && word == old(word)
    {
      ghost var h := st;
      FirstCacheNeverNull(h);
      var made := MakeCache(size);
      ghost var m := Mem();
      firstCache := made;
      AddCacheRep(m, h, size, Mem());
      st := AddCache(h, size);
    }

    /** A further cache behind the last one; NULL leaves everything as it is. */
    method AppendCache(last: int, size: int) returns (made: int)
      requires Rep(Mem(), st) && Sound(st) && st.list != [] && last == st.list[|st.list| - 1]
      modifies this
      ensures made == CacheSource(old(st)) && Rep(Mem(), st)
      ensures st == if made == NULL then old(st) else AddCache(old(st), size)
      ensures slabAt == old(slabAt) && word == old(word)
    {
      ghost var h := st;
      LastNextNull(Mem(), h);
      made := MakeCache(size);
      ghost var m := Mem();
      LastStillHeld(m, h);
      cacheAt := cacheAt[last := cacheAt[last].(next := made)];
      if made != NULL {
        AddCacheRep(m, h, size, Mem());
        st := AddCache(h, size);
      } else {
        assert Mem() == m;
      }
    }

    /** The part of malloc that finds the cache for an object size, or makes one at the end of the list. */
    method CacheFor(size: int) returns (cache: int)
      requires Valid() && ValidSize(size) && st.end - st.base >= HEAP_HEADER + CACHE_BYTES
      modifies this
      ensures Rep(Mem(), st) && (st, cache) == WithCache(old(st), size)
      ensures slabAt == old(slabAt) && word == old(word)
    {
      ghost var h := st;
      FirstIsNull(h);
      if firstCache == NULL {
        MakeFirstCache(size);
        OnlyCache(h, size);
      }
      cache := SearchCaches(size);
      if cacheAt[cache].size != size {
        NewCacheTaken(h, size);
        cache := AppendCache(cache, size);
      } else if h.list != [] {
        FoundCacheUsed(h, size, cache);
      }
    }

    /** The record for a new slab: an idle one, or the next 4128 bytes of the arena. */
    method SlabSpace() returns (slab: int)
      requires Rep(Mem(), st) && Sound(st)
      modifies this
      ensures slab == SlabSource(st) && st == old(st)
      ensures Mem() == if slab == NULL then old(Mem())
        else old(Mem()).(idleSlab := First(TakeSlab(st).idleSlabs), freeSpace := TakeSlab(st).brk)
    {
      RecordsNotNull(st);
      if idleSlab != NULL {
        LinkedTail(SlabNext(slabAt), st.idleSlabs);
        slab := idleSlab;
        idleSlab := slabAt[idleSlab].next;
      } else {
        if freeSpace + SLAB_BYTES > heapEnd {
          return NULL;
        }
        slab := freeSpace;
        freeSpace := freeSpace + SLAB_BYTES;
      }
    }

    /** _make_slab: a record whose fields are set and whose objects are all on the free chain. */
    method MakeSlab(size: int, ghost c: int) returns (slab: int)
      requires Rep(Mem(), st) && Sound(st) && ValidSize(size)
      modifies this
      ensures slab == SlabSource(old(st)) && Rep(Mem(), st) && cacheAt == old(cacheAt)
      ensures slab == NULL ==> Mem() == old(Mem()) && st == old(st)
      ensures slab != NULL ==> st == TakeSlab(old(st))
      ensures slab != NULL ==>
        slabAt == old(slabAt)[slab := SlabRec(NULL, 0, SLAB_SIZE / size, SlotAddr(slab, size, 0))]
      ensures slab != NULL ==> Threaded(word, slab, NewSlab(c, size))
      ensures OnlyIn(old(word), word, slab)
    {
      hide Rep, Sound;
      ghost var m := Mem();
      slab := SlabSpace();
      if slab == NULL {
        return;
      }
      slabAt := slabAt[slab := SlabRec(NULL, 0, SLAB_SIZE / size, slab + SLAB_HEADER)];
      word := ThreadObjects(word, slab, size, c);
      TakeSlabRep(m, st, slabAt[slab], word);
      st := TakeSlab(st);
    }

    /** The rest of malloc: takes the first free object of the first available slab. */
    method TakeObject(cache: int, ghost len: int) returns (obj: int)
      requires Rep(Mem(), st) && Sound(st) && cache in st.caches && st.caches[cache].avail != []
      requires len <= st.caches[cache].size
      modifies this
      ensures PopReady(old(st), cache) && (st, obj) == Pop(old(st), cache, len)
      ensures Rep(Mem(), st) && word == old(word)
    {
      ghost var m, h := Mem(), st;
      ghost var avail, full := st.caches[cache].avail, st.caches[cache].full;
      PopEnabled(h, cache);
      FirstSlabHeld(m, h, cache);
      var slab := cacheAt[cache].avail;
      obj := slabAt[slab].firstFree;
      slabAt := slabAt[slab := slabAt[slab].(firstFree := word[obj], objects := slabAt[slab].objects + 1)];
      if slabAt[slab].objects == slabAt[slab].max {
        cacheAt := cacheAt[cache := cacheAt[cache].(avail := slabAt[slab].next)];
        if cacheAt[cache].full == NULL {
          cacheAt := cacheAt[cache := cacheAt[cache].(full := slab)];
        } else {
          SameLinks(m.slabAt, slab, slabAt[slab]);
          var last := LastSlab(cacheAt[cache].full, full);
          slabAt := slabAt[last := slabAt[last].(next := slab)];
        }
        slabAt := slabAt[slab := slabAt[slab].(next := NULL)];
        PopFullRep(m, h, cache, len, Mem());
      } else {
        PopRoomRep(m, h, cache, len, Mem());
      }
      st := Pop(h, cache, len).0;
    }

    /** malloc for requests of at most a slab; NULL when the arena is used up. */
    method Malloc(len: int) returns (obj: int)
      requires Valid() && 0 <= len <= SLAB_SIZE && st.end - st.base >= HEAP_HEADER + CACHE_BYTES
      modifies this
      ensures Valid() && (st, obj) == MallocStep(old(st), len)
      ensures forall p :: p in old(st.live) ==> LiveUntouched(old(word), word, old(st), p)
    {
      ghost var h := st;
      MallocKeepsInv(h, len);
      UnchangedWords(h, word);
      assert Sound(h);
      hide Rep, Sound, Inv, WithCache, SlabSource, AddSlab, LiveUntouched;
      var size := if len < MIN_OBJECT then MIN_OBJECT else len;
      var cache := CacheFor(size);
      if cache == NULL {
        return NULL;
      }
      ghost var h1 := st;
      CacheIsHeld(Mem(), h1, cache);
      if cacheAt[cache].avail == NULL {
        AddSlabTaken(h1, cache);
        GiveSlab(cache);
        NewSlabOffLive(h, h1, old(word), word);
        CacheIsHeld(Mem(), st, cache);
        if cacheAt[cache].avail == NULL {
          return NULL;
        }
      }
      obj := TakeObject(cache, len);
    }

    /** Makes a slab the only available one of a cache that has none; nothing changes when it cannot be made. */
    method GiveSlab(cache: int)
      requires Rep(Mem(), st) && Sound(st) && cache in st.caches && st.caches[cache].avail == []
      modifies this
      ensures ValidSize(old(st).caches[cache].size)
      ensures st == if SlabSource(old(st)) == NULL then old(st) else AddSlab(old(st), cache)
      ensures Rep(Mem(), st)
      ensures if SlabSource(old(st)) == NULL then word == old(word) else OnlyIn(old(word), word, SlabSource(old(st)))
    {
      ghost var h := st;
      CacheIsHeld(Mem(), h, cache);
      var made := MakeSlab(cacheAt[cache].size, cache);
      ghost var m := Mem();
      cacheAt := cacheAt[cache := cacheAt[cache].(avail := made)];
      if made != NULL {
        AddSlabRep(m, h, cache, Mem());
        st := AddSlab(h, cache);
      } else {
        assert Mem() == m;
      }
    }

    // ----- free -----

    /**
     The walk of _check_slab_for_pointer along the free chain, to the free object that `alloc` goes behind.
     It stops on a real free object because the chain ends in the marker past the slab's last object.
     */
    method WalkChain(alloc: int, slab: int) returns (obj: int)
      requires Rep(Mem(), st) && Sound(st) && InDomain(st, alloc) && slab == st.live[alloc].slab && slab in slabAt
      requires st.slabs[slab].free != []
      ensures st.slabs[slab].free != [] && ValidSize(st.slabs[slab].size)
      ensures var j := InsertPos(st.slabs[slab].free, st.live[alloc].slot, 1);
        obj == SlotAddr(slab, st.slabs[slab].size, st.slabs[slab].free[j - 1]) && obj in word
        && word[obj] == ChainNext(slab, st.slabs[slab], j - 1)
    {
      ghost var data, k := st.slabs[slab], st.live[alloc].slot;
      ChainHeld(Mem(), st, alloc);
      hide Rep, Sound, InDomain;
      obj := slabAt[slab].firstFree;
      ghost var i := 0;
      assert WordAt(word, slab, data, 0) && ChainStep(st, alloc, 0);
      while !(word[obj] > alloc) && obj != NULL
        invariant i < |data.free| && obj == SlotAddr(slab, data.size, data.free[i])
        invariant WordAt(word, slab, data, i) && ChainStep(st, alloc, i)
        invariant i + 1 <= InsertPos(data.free, k, 1)
        decreases |data.free| - i
      {
        obj := word[obj];
        i := i + 1;
        assert WordAt(word, slab, data, i) && ChainStep(st, alloc, i);
      }
    }

    /** _check_slab_for_pointer: marks the object free when its address passes the slab's range test. */
    method CheckSlab(alloc: int, slab: int) returns (hit: bool)
      requires Rep(Mem(), st) && Sound(st) && Freeable(st, alloc) && slab in st.slabs
      modifies this
      ensures st == old(st) && hit == InRange(slab, alloc)
      ensures !hit ==> Mem() == old(Mem())
      ensures hit ==> alloc in st.live && slab == st.live[alloc].slab && Marked(old(Mem()), st, alloc, Mem())
    {
      if slab < alloc && slab + SLAB_BYTES >= alloc {
        RangeExact(st, alloc, slab);
        InUseHeld(Mem(), st, slab);
        if slabAt[slab].objects == slabAt[slab].max {
          slabAt := slabAt[slab := slabAt[slab].(firstFree := alloc)];
          word := word[alloc := NULL];
        } else {
          var obj := WalkChain(alloc, slab);
          var nextObject := word[obj];
          word := word[alloc := nextObject];
          word := word[obj := alloc];
        }
        return true;
      }
      return false;
    }

    /** _search_slab_list. */
    method SearchSlabs(alloc: int, head: int, ghost s: seq<int>) returns (slab: int)
      requires Rep(Mem(), st) && Sound(st) && Freeable(st, alloc)
      requires Linked(SlabNext(slabAt), s) && NonNull(s) && head == First(s)
      requires forall i {:trigger s[i]} :: 0 <= i < |s| ==> s[i] in st.slabs
      modifies this
      ensures st == old(st)
      ensures slab == NULL ==> Mem() == old(Mem()) && forall i {:trigger s[i]} :: 0 <= i < |s| ==> !InRange(s[i], alloc)
      ensures slab != NULL ==>
        slab in s && alloc in st.live && slab == st.live[alloc].slab && Marked(old(Mem()), st, alloc, Mem())
    {
      hide Rep, Sound, Freeable, Marked;
      slab := head;
      ghost var i := 0;
      while slab != NULL
        invariant i <= |s| && slab == if i < |s| then s[i] else NULL
        invariant Mem() == old(Mem()) && st == old(st)
        invariant forall k {:trigger s[k]} :: 0 <= k < i ==> !InRange(s[k], alloc)
        decreases |s| - i
      {
        var hit := CheckSlab(alloc, slab);
        if hit {
          return;
        }
        assert LinkAt(SlabNext(slabAt), s, i);
        slab := slabAt[slab].next;
        i := i + 1;
      }
    }

    /** The search of free: through the caches in order, each cache's available slabs before its full ones. */
    method FindSlab(alloc: int) returns (slab: int, cache: int, full: bool)
      requires Rep(Mem(), st) && Sound(st) && Freeable(st, alloc)
      modifies this
      ensures st == old(st)
      ensures slab == NULL ==> Mem() == old(Mem()) && forall x :: x in st.slabs ==> !InRange(x, alloc)
      ensures slab != NULL ==> Found(st, alloc, slab, cache, full) && Marked(old(Mem()), st, alloc, Mem())
    {
      ghost var h := st;
      AllListed(h, Mem());
      ListsReady(h, Mem());
      ghost var m := Mem();
      assert firstCache == First(h.list);
      hide Rep, Sound, Freeable, Marked, Found, Missed;
      cache := firstCache;
      slab, full := NULL, false;
      ghost var j := 0;
      while cache != NULL
        invariant j <= |h.list| && cache == if j < |h.list| then h.list[j] else NULL
        invariant slab == NULL && !full && Mem() == m && st == h
        invariant forall i :: 0 <= i < j ==> Missed(h, alloc, i)
        decreases |h.list| - j
      {
        assert Listed(m, h, j) && ListReady(m, h, j);
        slab := SearchSlabs(alloc, cacheAt[cache].avail, h.caches[cache].avail);
        if slab != NULL {
          FoundIn(h, alloc, cache, slab);
          return;
        }
        slab := SearchSlabs(alloc, cacheAt[cache].full, h.caches[cache].full);
        if slab != NULL {
          FoundIn(h, alloc, cache, slab);
          full := true;
          return;
        }
        MissedBoth(h, alloc, j);
        cache := cacheAt[cache].next;
        j := j + 1;
      }
      AllMissed(h, alloc);
    }

    // ----- Relinking for free -----

    method UnlinkFull(slab: int, cache: int, ghost full: seq<int>, ghost i: nat)
      requires Linked(SlabNext(slabAt), full) && NoDup(full) && i < |full| && full[i] == slab
      requires cache in cacheAt && cacheAt[cache].full == full[0]
      modifies this
      ensures st == old(st) && Mem() == old(Mem()).(slabAt := UnlinkSlab(old(slabAt), full, i),
        cacheAt := old(cacheAt)[cache := old(cacheAt)[cache].(full := if i == 0 then NextIn(full, 0) else full[0])])
    {
      assert LinkAt(SlabNext(slabAt), full, i);
      if slab != cacheAt[cache].full {
        var prev := SlabBefore(cacheAt[cache].full, slab, full, i);
        slabAt := slabAt[prev := slabAt[prev].(next := slabAt[slab].next)];
      } else {
        cacheAt := cacheAt[cache := cacheAt[cache].(full := slabAt[slab].next)];
      }
    }

    method UnlinkAvailable(slab: int, cache: int, ghost avail: seq<int>, ghost i: nat)
      requires Linked(SlabNext(slabAt), avail) && NoDup(avail) && i < |avail| && avail[i] == slab
      requires cache in cacheAt && cacheAt[cache].avail == avail[0]
      modifies this
      ensures st == old(st) && Mem() == old(Mem()).(slabAt := UnlinkSlab(old(slabAt), avail, i),
        cacheAt := old(cacheAt)[cache := old(cacheAt)[cache].(avail := if i == 0 then NextIn(avail, 0) else avail[0])])
    {
      assert LinkAt(SlabNext(slabAt), avail, i);
      if slab != cacheAt[cache].avail {
        var prev := SlabBefore(cacheAt[cache].avail, slab, avail, i);
        slabAt := slabAt[prev := slabAt[prev].(next := slabAt[slab].next)];
      } else {
        cacheAt := cacheAt[cache := cacheAt[cache].(avail := slabAt[slab].next)];
      }
    }

    method AppendAvailable(slab: int, cache: int, ghost avail: seq<int>)
      requires Linked(SlabNext(slabAt), avail) && NonNull(avail)
      requires cache in cacheAt && cacheAt[cache].avail == First(avail)
      modifies this
      ensures st == old(st) && Mem() == old(Mem()).(slabAt := AppendSlab(old(slabAt), avail, slab),
        cacheAt := old(cacheAt)[cache := old(cacheAt)[cache].(avail := if avail == [] then slab else avail[0])])
    {
      if cacheAt[cache].avail == NULL {
        cacheAt := cacheAt[cache := cacheAt[cache].(avail := slab)];
      } else {
        var last := LastSlab(cacheAt[cache].avail, avail);
        slabAt := slabAt[last := slabAt[last].(next := slab)];
      }
    }

    method AppendIdleSlab(slab: int, ghost idle: seq<int>)
      requires Linked(SlabNext(slabAt), idle) && NonNull(idle) && idleSlab == First(idle)
      modifies this
      ensures st == old(st) && Mem() == old(Mem()).(slabAt := AppendSlab(old(slabAt), idle, slab),
        idleSlab := if idle == [] then slab else idle[0])
    {
      if idleSlab == NULL {
        idleSlab := slab;
      } else {
        var last := LastSlab(idleSlab, idle);
        slabAt := slabAt[last := slabAt[last].(next := slab)];
      }
    }

    method UnlinkListed(cache: int, ghost list: seq<int>, ghost i: nat)
      requires Linked(CacheNext(cacheAt), list) && NoDup(list) && i < |list|
      requires list[i] == cache && firstCache == list[0]
      modifies this
      ensures st == old(st) && Mem() == old(Mem()).(cacheAt := UnlinkCache(old(cacheAt), list, i),
        firstCache := if i == 0 then NextIn(list, 0) else list[0])
    {
      assert LinkAt(CacheNext(cacheAt), list, i);
      if cache != firstCache {
        var prev := CacheBefore(firstCache, cache, list, i);
        cacheAt := cacheAt[prev := cacheAt[prev].(next := cacheAt[cache].next)];
      } else {
        firstCache := cacheAt[cache].next;
      }
    }

    method AppendIdleCache(cache: int, ghost idle: seq<int>)
      requires Linked(CacheNext(cacheAt), idle) && NonNull(idle) && idleCache == First(idle)
      modifies this
      ensures st == old(st) && Mem() == old(Mem()).(cacheAt := HeapRep.AppendCache(old(cacheAt), idle, cache),
        idleCache := if idle == [] then cache else idle[0])
    {
      if idleCache == NULL {
        idleCache := cache;
      } else {
        var last := LastCache(idleCache, idle);
        cacheAt := cacheAt[last := cacheAt[last].(next := cache)];
      }
    }

    /** free's move of a slab that was full: out of the full list, to the end of the available list. */
    method MoveToAvailable(slab: int, cache: int, ghost m: Memory, ghost p: int)
      requires Sound(st) && Rep(m, st) && InDomain(st, p) && PushReady(st, p) && slab == st.live[p].slab
      requires st.slabs[slab].free == [] && cache == st.slabs[slab].owner && slab in m.slabAt
      requires Mem() == m.(
        slabAt := m.slabAt[slab := m.slabAt[slab].(firstFree := p, objects := m.slabAt[slab].objects - 1)],
                           word := m.word[p := NULL])
      modifies this
      ensures st == old(st) && Rep(Mem(), Push(st, p)) && word == old(word)
    {
      ghost var h := st;
      ghost var avail, full := h.caches[cache].avail, h.caches[cache].full;
      ghost var marked := slabAt;
      FullListsHeld(m, h, p);
      SameLinks(m.slabAt, slab, slabAt[slab]);
      hide Rep, Sound, Push, Linked, NoDup, InDomain;
      UnlinkFull(slab, cache, full, |full| - 1);
      AvailStillLinked(marked, slabAt, avail, full);
      LastUnlinked(marked, full);
      AppendAvailable(slab, cache, avail);
      assert Mem() == FullMoved(m, h, p);
      PushFullRep(m, h, p);
    }

    /** free's removal of an emptied slab: out of its cache's available list, to the end of the idle slabs. */
    method ReleaseSlab(slab: int, cache: int)
      requires Rep(Mem(), st) && Sound(st) && RetireReady(st, slab) && cache == st.slabs[slab].owner
      requires st.slabs[slab].free != []
      modifies this
      ensures st == RetireSlab(old(st), slab) && Rep(Mem(), st) && word == old(word)
    {
      ghost var m, h := Mem(), st;
      ghost var avail, idle := h.caches[cache].avail, h.idleSlabs;
      ghost var i := Index(avail, slab);
      AvailAndIdleHeld(m, h, slab);
      hide Rep, Sound, RetireSlab, Linked, NoDup;
      UnlinkAvailable(slab, cache, avail, i);
      slabAt := slabAt[slab := slabAt[slab].(next := NULL)];
      AvailStillLinked(m.slabAt, slabAt, idle, avail);
      AppendIdleSlab(slab, idle);
      assert Mem() == SlabReleased(m, h, slab);
      RetireSlabRep(m, h, slab);
      st := RetireSlab(h, slab);
    }

    /** free's removal of an emptied cache: out of the cache list, to the end of the idle caches. */
    method ReleaseCache(cache: int)
      requires Rep(Mem(), st) && Sound(st) && cache in st.list
      modifies this
      ensures st == RetireCache(old(st), cache) && Rep(Mem(), st) && word == old(word)
    {
      ghost var m, h := Mem(), st;
      ghost var list, idle := h.list, h.idleCaches;
      ListAndIdleHeld(m, h, cache);
      hide Rep, Sound, RetireCache, Linked, NoDup;
      UnlinkListed(cache, list, Index(list, cache));
      cacheAt := cacheAt[cache := cacheAt[cache].(next := NULL)];
      IdleStillLinked(m.cacheAt, cacheAt, idle, list);
      AppendIdleCache(cache, idle);
      assert Mem() == CacheReleased(m, h, cache);
      RetireCacheRep(m, h, cache);
      st := RetireCache(h, cache);
    }

    /** free's bookkeeping once the object is marked: one object less, and a slab that was full changes lists. */
    method TakeBack(alloc: int, slab: int, cache: int, full: bool, ghost m: Memory)
      requires Sound(st) && Rep(m, st) && Found(st, alloc, slab, cache, full) && Marked(m, st, alloc, Mem())
      modifies this
      ensures PushReady(old(st), alloc) && st == Push(old(st), alloc) && Rep(Mem(), st) && word == old(word)
    {
      ghost var h := st;
      PushEnabled(h, alloc);
      InUseHeld(m, h, slab);
      hide Rep, Sound, Push;
      slabAt := slabAt[slab := slabAt[slab].(objects := slabAt[slab].objects - 1)];
      if full {
        MoveToAvailable(slab, cache, m, alloc);
      } else {
        PushPristineRep(m, h, alloc, Mem());
      }
      st := Push(h, alloc);
    }

    /** free's release of a slab that has become empty, and of its cache. */
    method SettleSlab(slab: int, cache: int)
      requires Rep(Mem(), st) && Sound(st) && slab in st.slabs && cache == st.slabs[slab].owner
      modifies this
      ensures st == Settle(old(st), slab) && Rep(Mem(), st) && word == old(word)
    {
      InUseHeld(Mem(), st, slab);
      SlabWithinMax(st, slab);
      ghost var h := st;
      if slabAt[slab].objects == 0 {
        RetireSlabSound(h, slab);
        MaxBounds(h.slabs[slab].size);
        assert cache in RetireSlab(h, slab).caches;
        hide Rep, Sound, RetireSlab;
        ReleaseSlab(slab, cache);
        CacheIsHeld(Mem(), st, cache);
        if cacheAt[cache].avail == NULL && cacheAt[cache].full == NULL {
          RetireCacheSound(st, cache);
          ReleaseCache(cache);
        }
      }
    }

    /**
     free, on the slab heap: gives back an in-domain object.  An address that passes no slab's range test is
     not found, and nothing changes.
     */
    method Free(alloc: int) returns (found: bool)
      requires Valid() && Freeable(st, alloc)
      modifies this
      ensures Valid()
      ensures found <==> InDomain(old(st), alloc)
      ensures st == if found then FreeStep(old(st), alloc) else old(st)
      ensures !found ==> Mem() == old(Mem())
      ensures forall p :: p in old(st.live) && p != alloc ==> LiveUntouched(old(word), word, old(st), p)
    {
      ghost var m, h := Mem(), st;
      var slab, cache, full := FindSlab(alloc);
      if slab == NULL {
        NotFound(h, alloc);
        UnchangedWords(h, word);
        return false;
      }
      FreeKeepsInv(h, alloc);
      PushSound(h, alloc);
      MarkedOffLive(m, h, alloc, Mem());
      hide Rep, Sound, Inv, Freeable, LiveUntouched, Marked, Push, Settle;
      TakeBack(alloc, slab, cache, full, m);
      PushKeepsOwner(h, alloc);
      SettleSlab(slab, cache);
      found := true;
    }
  }

  lemma PushKeepsOwner(h: Heap, p: int)
    requires PushReady(h, p)
    ensures var x := h.live[p].slab;
      x in Push(h, p).slabs && Push(h, p).slabs[x].owner == h.slabs[x].owner
  {
  }

  lemma NotFound(h: Heap, p: int)
    requires Sound(h) && forall x :: x in h.slabs ==> !InRange(x, p)
    ensures !InDomain(h, p)
  {
    if InDomain(h, p) {
      SmallPassesOwnSlabOnly(h, p, h.live[p].slab);
    }
  }

  /** free writes to no object that stays live. */
  lemma MarkedOffLive(m: Memory, h: Heap, p: int, m': Memory)
    requires Sound(h) && InDomain(h, p) && Marked(m, h, p, m')
    ensures forall q :: q in h.live && q != p ==> LiveUntouched(m.word, m'.word, h, q)
  {
    var x, k := h.live[p].slab, h.live[p].slot;
    assert Placed(h.slabs, p, h.live[p]);
    forall q | q in h.live && q != p ensures LiveUntouched(m.word, m'.word, h, q) {
      assert Placed(h.slabs, q, h.live[q]);
      var y, l := h.live[q].slab, h.live[q].slot;
      SlotsApart(h, x, k, y, l);
      if h.slabs[x].free != [] {
        var f := h.slabs[x].free[InsertPos(h.slabs[x].free, k, 1) - 1];
        assert f in h.slabs[x].free && SlabOk(h.slabs[x]);
        SlotsApart(h, x, f, y, l);
      }
    }
  }

  lemma IdleStillLinked(cacheAt: map<int, CacheRec>, cacheAt': map<int, CacheRec>, idle: seq<int>, list: seq<int>)
    requires Linked(CacheNext(cacheAt), idle) && forall i {:trigger idle[i]} :: 0 <= i < |idle| ==> idle[i] !in list
    requires forall d :: d in cacheAt && d !in list ==> d in cacheAt' && cacheAt'[d] == cacheAt[d]
    ensures Linked(CacheNext(cacheAt'), idle)
  {
    forall i | 0 <= i < |idle| && idle[i] in CacheNext(cacheAt)
      ensures idle[i] in CacheNext(cacheAt') && CacheNext(cacheAt')[idle[i]] == CacheNext(cacheAt)[idle[i]]
    {
      var d := idle[i];
      assert d !in list;
    }
    LinkedFrame(CacheNext(cacheAt), CacheNext(cacheAt'), idle);
  }

  /** free found p's slab in this cache, on its full list or its available list. */
  ghost predicate Found(h: Heap, p: int, slab: int, cache: int, full: bool) {
    && InDomain(h, p) && slab == h.live[p].slab && slab in h.slabs && cache == h.slabs[slab].owner && cache in h.caches
    && (full <==> h.slabs[slab].free == [])
  }

  /** The two slab lists of the cache at position j are linked and hold only slabs in use. */
  ghost predicate ListReady(m: Memory, h: Heap, j: nat) {
    && j < |h.list| && h.list[j] in m.cacheAt && h.list[j] in h.caches
    && var c := h.list[j];
      && SlabsReady(m, h, h.caches[c].avail) && m.cacheAt[c].avail == First(h.caches[c].avail)
      && SlabsReady(m, h, h.caches[c].full) && m.cacheAt[c].full == First(h.caches[c].full)
  }

  ghost predicate SlabsReady(m: Memory, h: Heap, s: seq<int>) {
    Linked(SlabNext(m.slabAt), s) && NonNull(s) && forall i {:trigger s[i]} :: 0 <= i < |s| ==> s[i] in h.slabs
  }

  lemma ListsReady(h: Heap, m: Memory)
    requires Rep(m, h) && Sound(h)
    ensures forall j :: 0 <= j < |h.list| ==> ListReady(m, h, j)
  {
    NullNowhere(h);
    forall j | 0 <= j < |h.list| ensures ListReady(m, h, j) {
      var c := h.list[j];
      assert c in h.list;
      assert CacheHeld(m.cacheAt, SlabNext(m.slabAt), c, h.caches[c]);
      ListMembers(h, c);
      assert forall i :: 0 <= i < |h.caches[c].avail| ==> HasRoom(h.slabs, h.caches[c].avail[i], c);
      assert forall i :: 0 <= i < |h.caches[c].full| ==> IsFull(h.slabs, h.caches[c].full[i], c);
    }
  }

  lemma FoundIn(h: Heap, p: int, c: int, x: int)
    requires Sound(h) && Freeable(h, p) && c in h.caches && p in h.live && x == h.live[p].slab
    requires x in h.caches[c].avail || x in h.caches[c].full
    ensures Found(h, p, x, c, x in h.caches[c].full)
    ensures x in h.caches[c].avail ==> x !in h.caches[c].full
  {
    assert x in h.caches[c].avail <==> HasRoom(h.slabs, x, c);
    assert x in h.caches[c].full <==> IsFull(h.slabs, x, c);
    SmallPassesOwnSlabOnly(h, p, x);
  }

  lemma MissedBoth(h: Heap, p: int, j: nat)
    requires Sound(h) && j < |h.list| && h.list[j] in h.caches
    requires forall i {:trigger h.caches[h.list[j]].avail[i]} :: 0 <= i < |h.caches[h.list[j]].avail| ==>
      !InRange(h.caches[h.list[j]].avail[i], p)
    requires forall i {:trigger h.caches[h.list[j]].full[i]} :: 0 <= i < |h.caches[h.list[j]].full| ==>
      !InRange(h.caches[h.list[j]].full[i], p)
    ensures Missed(h, p, j)
  {
    var c := h.list[j];
    forall x | x in h.slabs && h.slabs[x].owner == c ensures !InRange(x, p) {
      assert x in h.caches[c].avail <==> HasRoom(h.slabs, x, c);
      assert x in h.caches[c].full <==> IsFull(h.slabs, x, c);
      if x in h.caches[c].avail {
        assert h.caches[c].avail[Index(h.caches[c].avail, x)] == x;
      } else {
        assert h.caches[c].full[Index(h.caches[c].full, x)] == x;
      }
    }
  }

  lemma AllMissed(h: Heap, p: int)
    requires Sound(h) && forall i :: 0 <= i < |h.list| ==> Missed(h, p, i)
    ensures forall x :: x in h.slabs ==> !InRange(x, p)
  {
    forall x | x in h.slabs ensures !InRange(x, p) {
      var c := h.slabs[x].owner;
      assert c in h.list;
      assert Missed(h, p, Index(h.list, c));
    }
  }

  /** Unlinking the last member leaves its own `next` as it was, NULL. */
  lemma LastUnlinked(slabAt: map<int, SlabRec>, s: seq<int>)
    requires Linked(SlabNext(slabAt), s) && NoDup(s) && s != []
    ensures var x := s[|s| - 1]; var slabAt' := UnlinkSlab(slabAt, s, |s| - 1); SetSlabNext(slabAt', x, NULL) == slabAt'
  {
    assert LinkAt(SlabNext(slabAt), s, |s| - 1);
  }

  lemma AvailStillLinked(slabAt: map<int, SlabRec>, slabAt': map<int, SlabRec>, avail: seq<int>, full: seq<int>)
    requires Linked(SlabNext(slabAt), avail) && forall i {:trigger avail[i]} :: 0 <= i < |avail| ==> avail[i] !in full
    requires forall y :: y in slabAt && y !in full ==> y in slabAt' && slabAt'[y] == slabAt[y]
    ensures Linked(SlabNext(slabAt'), avail)
  {
    forall i | 0 <= i < |avail| && avail[i] in SlabNext(slabAt)
      ensures avail[i] in SlabNext(slabAt') && SlabNext(slabAt')[avail[i]] == SlabNext(slabAt)[avail[i]]
    {
      var y := avail[i];
      assert y !in full;
    }
    LinkedFrame(SlabNext(slabAt), SlabNext(slabAt'), avail);
  }

  /** No slab of the cache at position i passes the range test. */
  ghost predicate Missed(h: Heap, p: int, i: nat) {
    i < |h.list| && forall x :: x in h.slabs && h.slabs[x].owner == h.list[i] ==> !InRange(x, p)
  }

  /** The range test of _check_slab_for_pointer, with its inclusive upper bound. */
  predicate InRange(slab: int, alloc: int) {
    slab < alloc && slab + SLAB_BYTES >= alloc
  }

  /** What free accepts: in-domain objects of the slab heap, or addresses that pass no slab's range test. */
  ghost predicate Freeable(h: Heap, alloc: int) {
    InDomain(h, alloc) || (forall x :: x in h.slabs ==> !InRange(x, alloc))
  }

  /** A small object's address passes the range test of its own slab and of no other. */
  lemma SmallPassesOwnSlabOnly(h: Heap, p: int, x: int)
    requires Sound(h) && p in h.live && x in h.slabs
    ensures InRange(x, p) <==> x == h.live[p].slab
  {
    assert Placed(h.slabs, p, h.live[p]);
    var y := h.live[p].slab;
    SlotInSlab(y, h.slabs[y].size, h.live[p].slot);
    if x != y {
      SlabsApart(h, x, y);
    }
  }

  lemma RangeExact(h: Heap, p: int, x: int)
    requires Sound(h) && Freeable(h, p) && x in h.slabs && InRange(x, p)
    ensures InDomain(h, p) && x == h.live[p].slab
  {
    SmallPassesOwnSlabOnly(h, p, x);
  }

  lemma InUseHeld(m: Memory, h: Heap, x: int)
    requires Rep(m, h) && Sound(h) && x in h.slabs
    ensures x in m.slabAt && (m.slabAt[x].objects == m.slabAt[x].max <==> h.slabs[x].free == [])
    ensures m.slabAt[x].objects == h.slabs[x].Max() - |h.slabs[x].free|
  {
    assert SlabHeld(m.slabAt, x, h.slabs[x]);
  }

  /** Memory after _check_slab_for_pointer has put the object at p on its slab's chain. */
  ghost predicate Marked(m: Memory, h: Heap, p: int, m': Memory) {
    && p in h.live && h.live[p].slab in h.slabs && h.live[p].slab in m.slabAt
    && var x := h.live[p].slab;
      var slab := h.slabs[x];
      if slab.free == [] then
        m' == m.(slabAt := m.slabAt[x := m.slabAt[x].(firstFree := p)], word := m.word[p := NULL])
      else
        && ValidSize(slab.size)
        && var j := InsertPos(slab.free, h.live[p].slot, 1);
          m' == m.(word := m.word[p := ChainNext(x, slab, j - 1)][SlotAddr(x, slab.size, slab.free[j - 1]) := p])
  }

  /** Does p's slab, with free slots, hold its chain in memory? */
  ghost predicate ChainReady(m: Memory, h: Heap, p: int) {
    && p in h.live && h.live[p].slab in h.slabs && h.live[p].slab in m.slabAt
    && var x := h.live[p].slab;
      var slab := h.slabs[x];
      && ValidSize(slab.size) && slab.free != []
      && m.slabAt[x].firstFree == SlotAddr(x, slab.size, slab.free[0])
      && (forall i :: 0 <= i < |slab.free| ==> WordAt(m.word, x, slab, i) && ChainStep(h, p, i))
  }

  /** Comparing the address a free object holds with p tells on which side of p the next free slot lies. */
  predicate ChainStep(h: Heap, p: int, i: nat) {
    && p in h.live && h.live[p].slab in h.slabs
    && var x := h.live[p].slab;
      var slab := h.slabs[x];
      && i < |slab.free| && ValidSize(slab.size)
      && SlotAddr(x, slab.size, slab.free[i]) > NULL
      && (ChainNext(x, slab, i) > p <==> i + 1 == |slab.free| || slab.free[i + 1] > h.live[p].slot)
  }

  lemma ChainHeld(m: Memory, h: Heap, p: int)
    requires Rep(m, h) && Sound(h) && InDomain(h, p) && h.slabs[h.live[p].slab].free != []
    ensures ChainReady(m, h, p)
  {
    var x, k := h.live[p].slab, h.live[p].slot;
    var slab := h.slabs[x];
    assert SlabHeld(m.slabAt, x, slab) && Threaded(m.word, x, slab);
    forall i | 0 <= i < |slab.free| ensures WordAt(m.word, x, slab, i) && ChainStep(h, p, i) {
      ChainCompares(h, p, i);
    }
  }

  lemma SlabPositive(h: Heap, x: int)
    requires Sound(h) && x in h.slabs
    ensures x > NULL
  {
    RecordInArena(h.carved, h.base, h.brk, Record(x, SlabRecord));
  }

  lemma SlotPositive(h: Heap, x: int, i: nat)
    requires Sound(h) && x in h.slabs && i < |h.slabs[x].free|
    ensures ValidSize(h.slabs[x].size) && SlotAddr(x, h.slabs[x].size, h.slabs[x].free[i]) > NULL
  {
    SlabPositive(h, x);
    assert SlabOk(h.slabs[x]);
    assert h.slabs[x].free[i] in h.slabs[x].free;
    SlotInSlab(x, h.slabs[x].size, h.slabs[x].free[i]);
  }

  lemma ChainCompares(h: Heap, p: int, i: nat)
    requires Sound(h) && p in h.live && h.live[p].slab in h.slabs && h.slabs[h.live[p].slab].pristine
    requires i < |h.slabs[h.live[p].slab].free|
    ensures ChainStep(h, p, i)
  {
    var x, k := h.live[p].slab, h.live[p].slot;
    var slab := h.slabs[x];
    assert Placed(h.slabs, p, h.live[p]) && SlabOk(slab);
    assert slab.free[i] in slab.free;
    SlotInSlab(x, slab.size, slab.free[i]);
    RecordInArena(h.carved, h.base, h.brk, Record(x, SlabRecord));
    if i + 1 < |slab.free| {
      assert slab.free[i + 1] in slab.free;
      SlotsDiffer(x, slab.size, slab.free[i + 1], k);
    } else {
      SlotsDiffer(x, slab.size, slab.Max(), k);
    }
  }

  /** Did no word overlapping the live object at p change? */
  ghost predicate LiveUntouched(word: map<int, int>, word': map<int, int>, h: Heap, p: int) {
    p in h.live && h.live[p].slab in h.slabs && Untouched(word, word', p, h.slabs[h.live[p].slab].size)
  }

  lemma AddSlabTaken(h: Heap, c: int)
    requires Sound(h) && c in h.caches && h.caches[c].avail == []
    ensures ValidSize(h.caches[c].size)
    ensures SlabSource(h) != NULL ==>
      && Sound(AddSlab(h, c)) && c in AddSlab(h, c).caches
      && AddSlab(h, c).caches[c].avail != [] && AddSlab(h, c).caches[c].size == h.caches[c].size
  {
    CacheSizeValid(h, c);
    if SlabSource(h) != NULL {
      AddSlabSound(h, c);
    }
  }

  lemma UnchangedWords(h: Heap, word: map<int, int>)
    requires Sound(h)
    ensures forall p :: p in h.live ==> LiveUntouched(word, word, h, p)
  {
    forall p | p in h.live ensures LiveUntouched(word, word, h, p) {
      assert Placed(h.slabs, p, h.live[p]);
    }
  }

  /** Threading a new slab writes to no object that is live. */
  lemma NewSlabOffLive(h: Heap, h1: Heap, word: map<int, int>, word': map<int, int>)
    requires Sound(h) && Sound(h1) && h1.live == h.live && h1.slabs == h.slabs
    requires if SlabSource(h1) == NULL then word' == word else OnlyIn(word, word', SlabSource(h1))
    ensures forall p :: p in h.live ==> LiveUntouched(word, word', h, p)
  {
    forall p | p in h.live ensures LiveUntouched(word, word', h, p) {
      assert Placed(h.slabs, p, h.live[p]);
      SlotInSlab(h.live[p].slab, h.slabs[h.live[p].slab].size, h.live[p].slot);
      if SlabSource(h1) != NULL {
        TakenSlabApart(h1, h.live[p].slab);
      }
    }
  }

  lemma CacheIsHeld(m: Memory, h: Heap, c: int)
    requires Rep(m, h) && Sound(h) && c in h.caches
    ensures c in m.cacheAt && m.cacheAt[c].size == h.caches[c].size && ValidSize(h.caches[c].size)
    ensures m.cacheAt[c].avail == First(h.caches[c].avail) && m.cacheAt[c].full == First(h.caches[c].full)
    ensures First(h.caches[c].avail) == NULL <==> h.caches[c].avail == []
    ensures First(h.caches[c].full) == NULL <==> h.caches[c].full == []
  {
    NullNowhere(h);
    assert CacheHeld(m.cacheAt, SlabNext(m.slabAt), c, h.caches[c]);
  }

  /** Threads all objects of a new slab: each points at the next address, the last one past the end. */
  method ThreadObjects(word: map<int, int>, slab: int, size: int, ghost c: int) returns (word': map<int, int>)
    requires ValidSize(size)
    ensures Threaded(word', slab, NewSlab(c, size))
    ensures OnlyIn(word, word', slab)
  {
    var max := SLAB_SIZE / size;
    word' := word;
    var i := 0;
    while i < max
      invariant 0 <= i <= max && OnlyIn(word, word', slab)
      invariant forall k: nat :: k < i ==> NextObject(word', slab, size, k)
    {
      SlotInSlab(slab, size, i);
      var obj := slab + SLAB_HEADER + i * size;
      ghost var before := word';
      word' := word'[obj := if i < max then slab + SLAB_HEADER + (i + 1) * size else NULL];
      forall k: nat | k < i ensures NextObject(word', slab, size, k) {
        assert NextObject(before, slab, size, k);
        SlotsDiffer(slab, size, k, i);
      }
      i := i + 1;
    }
    ghost var all := NewSlab(c, size);
    forall j | 0 <= j < |all.free| ensures WordAt(word', slab, all, j) {
      assert NextObject(word', slab, size, j);
    }
  }

  predicate NextObject(word: map<int, int>, slab: int, size: int, k: nat) {
    SlotAddr(slab, size, k) in word && word[SlotAddr(slab, size, k)] == SlotAddr(slab, size, k + 1)
  }

  /** Do the two memories agree outside the object area of a slab? */
  ghost predicate OnlyIn(word: map<int, int>, word': map<int, int>, slab: int) {
    forall a :: !(slab + SLAB_HEADER <= a < slab + SLAB_BYTES) ==>
      (a in word <==> a in word') && (a in word ==> word'[a] == word[a])
  }

  lemma SameLinks(slabAt: map<int, SlabRec>, x: int, rec: SlabRec)
    requires x in slabAt && rec.next == slabAt[x].next
    ensures SlabNext(slabAt[x := rec]) == SlabNext(slabAt)
  {
  }

  /** What malloc reads of the first available slab. */
  lemma FirstSlabHeld(m: Memory, h: Heap, c: int)
    requires Rep(m, h) && Sound(h) && PopReady(h, c) && h.slabs[h.caches[c].avail[0]].owner == c
    ensures c in m.cacheAt && NonNull(h.caches[c].full)
    ensures m.cacheAt[c].avail == h.caches[c].avail[0] && m.cacheAt[c].full == First(h.caches[c].full)
    ensures Linked(SlabNext(m.slabAt), h.caches[c].full)
    ensures var x := h.caches[c].avail[0];
      var slab := h.slabs[x];
      && x in m.slabAt && m.slabAt[x].firstFree == SlotAddr(x, slab.size, slab.free[0])
      && m.slabAt[x].firstFree in m.word
      && m.slabAt[x].next == First(h.caches[c].avail[1..])
      && m.slabAt[x].objects == m.slabAt[x].max - |slab.free|
      && (|slab.free| > 1 ==> m.word[m.slabAt[x].firstFree] == SlotAddr(x, slab.size, slab.free[1]))
      && forall i :: 0 <= i < |h.caches[c].full| ==> h.caches[c].full[i] != x
  {
    var x := h.caches[c].avail[0];
    NullNowhere(h);
    ListMembers(h, c);
    assert CacheHeld(m.cacheAt, SlabNext(m.slabAt), c, h.caches[c]);
    assert SlabHeld(m.slabAt, x, h.slabs[x]) && Threaded(m.word, x, h.slabs[x]);
    ThreadedTail(m.word, x, h.slabs[x]);
    LinkedTail(SlabNext(m.slabAt), h.caches[c].avail);
    forall i | 0 <= i < |h.caches[c].full| ensures h.caches[c].full[i] != x {
      assert IsFull(h.slabs, h.caches[c].full[i], c);
    }
  }

  lemma FirstIsNull(h: Heap)
    requires Sound(h)
    ensures First(h.list) == NULL <==> h.list == []
  {
    NullNowhere(h);
  }

  lemma OnlyCache(h: Heap, size: int)
    requires Sound(h) && ValidSize(size) && h.list == [] && CacheSource(h) != NULL
    ensures Sound(AddCache(h, size)) && AddCache(h, size).list != []
    ensures WithCache(h, size) == (AddCache(h, size), CacheSource(h))
    ensures forall c :: c in AddCache(h, size).caches ==>
      c == CacheSource(h) && AddCache(h, size).caches[c].size == size
  {
    assert forall c :: c in h.caches ==> c in h.list;
    NewCacheTaken(h, size);
    AddCacheSound(h, size);
  }

  /** Is position j of the cache list held in memory? */
  ghost predicate Listed(m: Memory, h: Heap, j: nat) {
    && j < |h.list| && h.list[j] in m.cacheAt && h.list[j] in h.caches
    && m.cacheAt[h.list[j]].size == h.caches[h.list[j]].size
    && m.cacheAt[h.list[j]].next == NextIn(h.list, j)
  }

  lemma AllListed(h: Heap, m: Memory)
    requires Rep(m, h) && Sound(h)
    ensures NonNull(h.list) && forall j :: 0 <= j < |h.list| ==> Listed(m, h, j)
  {
    NullNowhere(h);
    forall j | 0 <= j < |h.list| ensures Listed(m, h, j) {
      var c := h.list[j];
      assert c in h.list;
      assert LinkAt(CacheNext(m.cacheAt), h.list, j);
      assert CacheHeld(m.cacheAt, SlabNext(m.slabAt), c, h.caches[c]);
    }
  }

  lemma LastStillHeld(m: Memory, h: Heap)
    requires Linked(CacheNext(m.cacheAt), h.list) && h.list != []
    ensures h.list[|h.list| - 1] in m.cacheAt
  {
    assert LinkAt(CacheNext(m.cacheAt), h.list, |h.list| - 1);
  }

  lemma LastNextNull(m: Memory, h: Heap)
    requires Rep(m, h) && h.list != []
    ensures var c := h.list[|h.list| - 1]; c in m.cacheAt && m.cacheAt[c].next == NULL
  {
    assert LinkAt(CacheNext(m.cacheAt), h.list, |h.list| - 1);
  }
}
