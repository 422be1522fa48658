/** The memory after each step of the heap still stands for the lists of HeapSpec. */
module HeapRepSteps {
  import opened Machine
  import opened Lists
  import opened Chains
  import opened HeapSpec
  import opened HeapInvariants
  import opened HeapTheorems
  import opened HeapRep

  // ----- Where records are -----

  lemma CacheNotNull(h: Heap, c: int)
    requires ArenaOk(h) && RecordsListed(h.caches.Keys, h.idleCaches, h.carved, CacheRecord)
    requires c in h.caches || c in h.idleCaches
    ensures c != NULL
  {
    RecordInArena(h.carved, h.base, h.brk, Record(c, CacheRecord));
  }

  lemma SlabNotNull(h: Heap, x: int)
    requires ArenaOk(h) && RecordsListed(h.slabs.Keys, h.idleSlabs, h.carved, SlabRecord)
    requires x in h.slabs || x in h.idleSlabs
    ensures x != NULL
  {
    RecordInArena(h.carved, h.base, h.brk, Record(x, SlabRecord));
  }

  /** NULL is no record's address, so it ends every list. */
  lemma NullNowhere(h: Heap)
    requires Sound(h)
    ensures NonNull(h.list) && NonNull(h.idleCaches) && NonNull(h.idleSlabs)
    ensures forall c :: c in h.caches ==> NonNull(h.caches[c].avail) && NonNull(h.caches[c].full)
  {
    if NULL in h.list || NULL in h.idleCaches {
      CacheNotNull(h, NULL);
    }
    if NULL in h.idleSlabs {
      SlabNotNull(h, NULL);
    }
    NotInNonNull(h.list);
    NotInNonNull(h.idleCaches);
    NotInNonNull(h.idleSlabs);
    forall c | c in h.caches ensures NonNull(h.caches[c].avail) && NonNull(h.caches[c].full) {
      if NULL in h.caches[c].avail {
        assert HasRoom(h.slabs, NULL, c);
        SlabNotNull(h, NULL);
      }
      if NULL in h.caches[c].full {
        assert IsFull(h.slabs, NULL, c);
        SlabNotNull(h, NULL);
      }
      NotInNonNull(h.caches[c].avail);
      NotInNonNull(h.caches[c].full);
    }
  }

  /** The record taken for a cache is on no list any more. */
  lemma TakenCacheSeparate(h: Heap)
    requires Sound(h) && CacheSource(h) != NULL
    ensures CacheSource(h) !in h.caches
    ensures forall i :: 0 <= i < |h.list| ==> h.list[i] != CacheSource(h)
    ensures forall i :: 0 <= i < |TakeCache(h).idleCaches| ==> TakeCache(h).idleCaches[i] != CacheSource(h)
  {
    var c := CacheSource(h);
    TakeCacheBooks(h);
    forall i | 0 <= i < |h.list| ensures h.list[i] != c {
      var d := h.list[i];
      assert d in h.list;
    }
    forall i | 0 <= i < |TakeCache(h).idleCaches| ensures TakeCache(h).idleCaches[i] != c {
      var d := TakeCache(h).idleCaches[i];
      assert d in TakeCache(h).idleCaches;
    }
  }

  /** What _make_cache leaves in memory. */
  lemma TakeCacheRep(m: Memory, h: Heap, rec: CacheRec)
    requires Rep(m, h) && Sound(h) && CacheSource(h) != NULL
    ensures Rep(m.(idleCache := First(TakeCache(h).idleCaches), freeSpace := TakeCache(h).brk,
                   cacheAt := m.cacheAt[CacheSource(h) := rec]), TakeCache(h))
  {
    var cacheAt' := m.cacheAt[CacheSource(h) := rec];
    TakenCacheSeparate(h);
    LinkedFrame(CacheNext(m.cacheAt), CacheNext(cacheAt'), h.list);
    if h.idleCaches != [] {
      LinkedTail(CacheNext(m.cacheAt), h.idleCaches);
    }
    LinkedFrame(CacheNext(m.cacheAt), CacheNext(cacheAt'), TakeCache(h).idleCaches);
    CachesHeldFrame(m.cacheAt, cacheAt', SlabNext(m.slabAt), h.caches);
  }

  lemma CachesHeldFrame(cacheAt: map<int, CacheRec>, cacheAt': map<int, CacheRec>, next: map<int, int>,
    caches: map<int, Cache>)
    requires CachesHeld(cacheAt, next, caches)
    requires forall c :: c in caches ==>
      c in cacheAt' && (c in cacheAt ==> cacheAt'[c].(next := 0) == cacheAt[c].(next := 0))
    ensures CachesHeld(cacheAt', next, caches)
  {
    forall c | c in caches ensures CacheHeld(cacheAt', next, c, caches[c]) {
      assert CacheHeld(cacheAt, next, c, caches[c]);
    }
  }

  // ----- Caches -----

  /** Does m' differ from m by the taken cache's place at the end of the cache list alone? */
  ghost predicate CacheAppended(m: Memory, h: Heap, m': Memory) {
    if h.list == [] then m' == m.(firstCache := CacheSource(h))
    else
      var last := h.list[|h.list| - 1];
      last in m.cacheAt && m' == m.(cacheAt := m.cacheAt[last := m.cacheAt[last].(next := CacheSource(h))])
  }

  lemma AppendedList(m: Memory, h: Heap, m': Memory)
    requires Sound(h) && CacheSource(h) != NULL && Linked(CacheNext(m.cacheAt), h.list)
    requires CacheSource(h) in m.cacheAt && m.cacheAt[CacheSource(h)].next == NULL && CacheAppended(m, h, m')
    ensures Linked(CacheNext(m'.cacheAt), h.list + [CacheSource(h)])
  {
    TakenCacheSeparate(h);
    forall i | 0 <= i < |h.list| - 1 ensures h.list[i] != h.list[|h.list| - 1] {
    }
    hide Sound, TakeCache;
    LinkedAppend(CacheNext(m.cacheAt), CacheNext(m'.cacheAt), h.list, CacheSource(h));
  }

  lemma AppendedIdle(m: Memory, h: Heap, m': Memory)
    requires Sound(h) && CacheSource(h) != NULL && CacheAppended(m, h, m')
    requires Linked(CacheNext(m.cacheAt), TakeCache(h).idleCaches)
    ensures Linked(CacheNext(m'.cacheAt), TakeCache(h).idleCaches)
  {
    hide Sound, TakeCache;
    var idle := TakeCache(h).idleCaches;
    if h.list != [] {
      ListedNotIdle(h, h.list[|h.list| - 1]);
      forall i | 0 <= i < |idle| ensures idle[i] != h.list[|h.list| - 1] {
        var d := idle[i];
        assert d in idle;
      }
    }
    LinkedFrame(CacheNext(m.cacheAt), CacheNext(m'.cacheAt), idle);
  }

  lemma AppendedHeld(m: Memory, h: Heap, size: int, m': Memory)
    requires Sound(h) && CacheSource(h) != NULL && CachesHeld(m.cacheAt, SlabNext(m.slabAt), h.caches)
    requires CacheSource(h) in m.cacheAt && m.cacheAt[CacheSource(h)] == CacheRec(NULL, size, NULL, NULL)
    requires CacheAppended(m, h, m')
    ensures CachesHeld(m'.cacheAt, SlabNext(m'.slabAt), h.caches[CacheSource(h) := Cache(size, [], [])])
  {
    TakenCacheSeparate(h);
    hide Sound, TakeCache;
    CachesHeldFrame(m.cacheAt, m'.cacheAt, SlabNext(m.slabAt), h.caches);
    assert CacheHeld(m'.cacheAt, SlabNext(m'.slabAt), CacheSource(h), Cache(size, [], []));
  }

  /** Linking the taken cache at the end of the cache list. */
  lemma AddCacheRep(m: Memory, h: Heap, size: int, m': Memory)
    requires Sound(h) && CacheSource(h) != NULL && Rep(m, TakeCache(h))
    requires CacheSource(h) in m.cacheAt && m.cacheAt[CacheSource(h)] == CacheRec(NULL, size, NULL, NULL)
    requires CacheAppended(m, h, m')
    ensures Rep(m', AddCache(h, size))
  {
    hide Sound, Linked, CachesHeld, SlabsHeld, WordsHeld;
    AppendedList(m, h, m');
    AppendedIdle(m, h, m');
    AppendedHeld(m, h, size, m');
  }

  lemma ListedNotIdle(h: Heap, c: int)
    requires Sound(h) && c in h.list
    ensures c in h.caches && c !in h.idleCaches && c !in TakeCache(h).idleCaches
  {
    if h.idleCaches != [] {
      DropHeadNoDup(h.idleCaches);
    }
  }

  // ----- Slabs -----

  lemma CachesHeldExcept(cacheAt: map<int, CacheRec>, cacheAt': map<int, CacheRec>, next: map<int, int>,
      next': map<int, int>, caches: map<int, Cache>, slabs: map<int, Slab>, c: int)
    requires CachesHeld(cacheAt, next, caches) && CachesOk(caches, slabs)
    requires forall d :: d in caches && d != c && d in cacheAt ==>
      d in cacheAt' && cacheAt'[d].(next := 0) == cacheAt[d].(next := 0)
    requires forall y :: y in slabs && slabs[y].owner != c && y in next ==> y in next' && next'[y] == next[y]
    ensures forall d :: d in caches && d != c ==> CacheHeld(cacheAt', next', d, caches[d])
  {
    forall d | d in caches && d != c ensures CacheHeld(cacheAt', next', d, caches[d]) {
      assert CacheHeld(cacheAt, next, d, caches[d]);
      forall i | 0 <= i < |caches[d].avail| && caches[d].avail[i] in next
        ensures caches[d].avail[i] in next' && next'[caches[d].avail[i]] == next[caches[d].avail[i]]
      {
        var y := caches[d].avail[i];
        assert y in caches[d].avail;
        assert HasRoom(slabs, y, d);
      }
      forall i | 0 <= i < |caches[d].full| && caches[d].full[i] in next
        ensures caches[d].full[i] in next' && next'[caches[d].full[i]] == next[caches[d].full[i]]
      {
        var y := caches[d].full[i];
        assert y in caches[d].full;
        assert IsFull(slabs, y, d);
      }
      LinkedFrame(next, next', caches[d].avail);
      LinkedFrame(next, next', caches[d].full);
    }
  }

  lemma TakenSlabSeparate(h: Heap)
    requires Sound(h) && SlabSource(h) != NULL
    ensures SlabSource(h) !in h.slabs && Record(SlabSource(h), SlabRecord) in TakeSlab(h).carved
    ensures forall i :: 0 <= i < |TakeSlab(h).idleSlabs| ==> TakeSlab(h).idleSlabs[i] != SlabSource(h)
  {
    TakeSlabBooks(h);
    forall i | 0 <= i < |TakeSlab(h).idleSlabs| ensures TakeSlab(h).idleSlabs[i] != SlabSource(h) {
      var y := TakeSlab(h).idleSlabs[i];
      assert y in TakeSlab(h).idleSlabs;
    }
  }

  lemma TakenSlabLinks(m: Memory, h: Heap, rec: SlabRec)
    requires Sound(h) && SlabSource(h) != NULL
    requires Linked(SlabNext(m.slabAt), h.idleSlabs) && CachesHeld(m.cacheAt, SlabNext(m.slabAt), h.caches)
    ensures var next := SlabNext(m.slabAt[SlabSource(h) := rec]);
      Linked(next, TakeSlab(h).idleSlabs) && CachesHeld(m.cacheAt, next, h.caches)
  {
    var slabAt' := m.slabAt[SlabSource(h) := rec];
    TakenSlabSeparate(h);
    NullNotCache(h);
    if h.idleSlabs != [] {
      LinkedTail(SlabNext(m.slabAt), h.idleSlabs);
    }
    LinkedFrame(SlabNext(m.slabAt), SlabNext(slabAt'), TakeSlab(h).idleSlabs);
    hide ArenaOk, RecordsListed, SlabsOk, LiveOk, TakeSlab, Linked;
    CachesHeldExcept(m.cacheAt, m.cacheAt, SlabNext(m.slabAt), SlabNext(slabAt'), h.caches, h.slabs, NULL);
  }

  /** What _make_slab leaves in memory: the words of the new slab are its own. */
  lemma TakeSlabRep(m: Memory, h: Heap, rec: SlabRec, word': map<int, int>)
    requires Rep(m, h) && Sound(h) && SlabSource(h) != NULL
    requires forall a :: !(SlabSource(h) + SLAB_HEADER <= a < SlabSource(h) + SLAB_BYTES) && a in m.word ==>
      a in word' && word'[a] == m.word[a]
    ensures Rep(m.(idleSlab := First(TakeSlab(h).idleSlabs), freeSpace := TakeSlab(h).brk,
                   slabAt := m.slabAt[SlabSource(h) := rec], word := word'), TakeSlab(h))
  {
    hide Sound, Linked, CachesHeld, SlabsHeld, WordsHeld;
    TakenSlabLinks(m, h, rec);
    TakeSlabOthers(m, h, rec, word');
  }

  lemma NullNotCache(h: Heap)
    requires Sound(h)
    ensures NULL !in h.caches
  {
    if NULL in h.caches {
      CacheNotNull(h, NULL);
    }
  }

  lemma TakeSlabOthers(m: Memory, h: Heap, rec: SlabRec, word': map<int, int>)
    requires Sound(h) && SlabSource(h) != NULL && SlabsHeld(m.slabAt, h.slabs) && WordsHeld(m.word, h.slabs)
    requires forall a :: !(SlabSource(h) + SLAB_HEADER <= a < SlabSource(h) + SLAB_BYTES) && a in m.word ==>
      a in word' && word'[a] == m.word[a]
    ensures SlabsHeld(m.slabAt[SlabSource(h) := rec], h.slabs) && WordsHeld(word', h.slabs)
  {
    TakenSlabSeparate(h);
    forall y | y in h.slabs
      ensures SlabHeld(m.slabAt[SlabSource(h) := rec], y, h.slabs[y]) && Threaded(word', y, h.slabs[y])
    {
      assert SlabHeld(m.slabAt, y, h.slabs[y]) && Threaded(m.word, y, h.slabs[y]);
      TakenSlabApart(h, y);
      ThreadedFrame(m.word, word', y, h.slabs[y]);
    }
  }

  lemma TakenSlabApart(h: Heap, y: int)
    requires Sound(h) && SlabSource(h) != NULL && y in h.slabs
    ensures y + SLAB_BYTES <= SlabSource(h) || SlabSource(h) + SLAB_BYTES <= y
  {
    var t := TakeSlab(h);
    TakeSlabBooks(h);
    assert Record(y, SlabRecord) in t.carved;
    RecordsApart(t.carved, t.base, t.brk, Record(y, SlabRecord), Record(SlabSource(h), SlabRecord));
  }

  /** Making the taken slab the only available one of cache c. */
  lemma AddSlabRep(m: Memory, h: Heap, c: int, m': Memory)
    requires Sound(h) && SlabSource(h) != NULL && Rep(m, TakeSlab(h))
    requires c in h.caches && h.caches[c].avail == [] && ValidSize(h.caches[c].size)
    requires var x, size := SlabSource(h), h.caches[c].size;
      && x in m.slabAt && m.slabAt[x] == SlabRec(NULL, 0, SLAB_SIZE / size, SlotAddr(x, size, 0))
      && Threaded(m.word, x, NewSlab(c, size))
      && c in m.cacheAt && m' == m.(cacheAt := m.cacheAt[c := m.cacheAt[c].(avail := x)])
    ensures Rep(m', AddSlab(h, c))
  {
    hide Sound, Linked, CachesHeld, SlabsHeld, WordsHeld, Threaded, NewSlab;
    AddSlabHeld(m, h, c);
    AddSlabCachesHeld(m, h, c, m'.cacheAt);
    SameCacheLinks(m.cacheAt, c, m'.cacheAt[c]);
  }

  lemma AddSlabCachesHeld(m: Memory, h: Heap, c: int, cacheAt': map<int, CacheRec>)
    requires Sound(h) && CachesHeld(m.cacheAt, SlabNext(m.slabAt), h.caches) && c in h.caches && h.caches[c].avail == []
    requires SlabSource(h) in m.slabAt && m.slabAt[SlabSource(h)].next == NULL
    requires c in m.cacheAt && cacheAt' == m.cacheAt[c := m.cacheAt[c].(avail := SlabSource(h))]
    ensures CachesHeld(cacheAt', SlabNext(m.slabAt), h.caches[c := h.caches[c].(avail := [SlabSource(h)])])
  {
    var x, next := SlabSource(h), SlabNext(m.slabAt);
    hide ArenaOk, RecordsListed, SlabsOk, LiveOk, SlabSource;
    assert CacheHeld(m.cacheAt, next, c, h.caches[c]);
    CachesHeldExcept(m.cacheAt, cacheAt', next, next, h.caches, h.slabs, c);
    assert LinkAt(next, [x], 0);
    assert CacheHeld(cacheAt', next, c, h.caches[c].(avail := [x]));
  }

  lemma AddSlabHeld(m: Memory, h: Heap, c: int)
    requires c in h.caches && ValidSize(h.caches[c].size)
    requires SlabsHeld(m.slabAt, h.slabs) && WordsHeld(m.word, h.slabs)
    requires var x, size := SlabSource(h), h.caches[c].size;
      && x in m.slabAt && m.slabAt[x] == SlabRec(NULL, 0, SLAB_SIZE / size, SlotAddr(x, size, 0))
      && Threaded(m.word, x, NewSlab(c, size))
    ensures var slabs := h.slabs[SlabSource(h) := NewSlab(c, h.caches[c].size)];
      SlabsHeld(m.slabAt, slabs) && WordsHeld(m.word, slabs)
  {
    MaxBounds(h.caches[c].size);
  }

  // ----- Taking a slot -----

  /** The chain without its first slot. */
  lemma ThreadedTail(word: map<int, int>, x: int, slab: Slab)
    requires Threaded(word, x, slab) && slab.free != []
    ensures Threaded(word, x, slab.(free := slab.free[1..], pristine := slab.pristine && slab.free[1..] != []))
    ensures var a := SlotAddr(x, slab.size, slab.free[0]);
      a in word && (|slab.free| > 1 ==> word[a] == SlotAddr(x, slab.size, slab.free[1]))
  {
    var slab' := slab.(free := slab.free[1..], pristine := slab.pristine && slab.free[1..] != []);
    assert WordAt(word, x, slab, 0);
    forall j | 0 <= j < |slab'.free| ensures WordAt(word, x, slab', j) {
      assert WordAt(word, x, slab, j + 1);
    }
  }

  /** The memory after the first slot of cache c's first available slab is taken, slab x not filling up. */
  lemma PopRoomRep(m: Memory, h: Heap, c: int, len: int, m': Memory)
    requires Sound(h) && Rep(m, h) && PopReady(h, c)
    requires var x := h.caches[c].avail[0];
      && h.slabs[x].owner == c && |h.slabs[x].free| > 1 && x in m.slabAt
      && m' == m.(slabAt := m.slabAt[x := m.slabAt[x].(
           firstFree := SlotAddr(x, h.slabs[x].size, h.slabs[x].free[1]), objects := m.slabAt[x].objects + 1)])
    ensures Rep(m', Pop(h, c, len).0)
  {
    var x := h.caches[c].avail[0];
    var h' := Pop(h, c, len).0;
    assert SlabHeld(m.slabAt, x, h.slabs[x]);
    assert SlabNext(m'.slabAt) == SlabNext(m.slabAt);
    ThreadedTail(m.word, x, h.slabs[x]);
    assert h'.caches == h.caches;
    forall y | y in h'.slabs ensures SlabHeld(m'.slabAt, y, h'.slabs[y]) && Threaded(m'.word, y, h'.slabs[y]) {
      assert SlabHeld(m.slabAt, y, h.slabs[y]) && Threaded(m.word, y, h.slabs[y]);
    }
  }

  /** ... and the slab filling up: it moves from the front of the available list to the end of the full list. */
  lemma PopFullRep(m: Memory, h: Heap, c: int, len: int, m': Memory)
    requires Sound(h) && Rep(m, h) && PopReady(h, c) && c in m.cacheAt
    requires h.slabs[h.caches[c].avail[0]].owner == c && |h.slabs[h.caches[c].avail[0]].free| == 1
    requires h.caches[c].avail[0] in m.slabAt && h.caches[c].avail[0] in m'.slabAt
    requires var x, full := h.caches[c].avail[0], h.caches[c].full;
      && (full != [] ==> full[|full| - 1] in m'.slabAt && m'.slabAt[full[|full| - 1]].next == x)
      && m'.slabAt[x].next == NULL && m'.slabAt[x].objects == m.slabAt[x].objects + 1
      && m'.slabAt[x].max == m.slabAt[x].max
      && (forall y :: y in m.slabAt && y != x ==> y in m'.slabAt && m'.slabAt[y].(next := 0) == m.slabAt[y].(next := 0))
      && (forall y :: y in m.slabAt && y != x && (full == [] || y != full[|full| - 1]) ==> m'.slabAt[y] == m.slabAt[y])
      && m' == m.(slabAt := m'.slabAt, cacheAt := m.cacheAt[c := m.cacheAt[c].(
           avail := First(h.caches[c].avail[1..]), full := if full == [] then x else full[0])])
    ensures Rep(m', Pop(h, c, len).0)
  {
    var x, full := h.caches[c].avail[0], h.caches[c].full;
    var h' := Pop(h, c, len).0;
    assert CacheHeld(m.cacheAt, SlabNext(m.slabAt), c, h.caches[c]);
    ListMembers(h, c);
    ListsUntouched(m, h, c, m');
    PopFullLists(m, h, c, m');
    ThreadedTail(m.word, x, h.slabs[x]);
    forall y | y in h'.slabs ensures SlabHeld(m'.slabAt, y, h'.slabs[y]) && Threaded(m'.word, y, h'.slabs[y]) {
      assert SlabHeld(m.slabAt, y, h.slabs[y]) && Threaded(m.word, y, h.slabs[y]);
    }
  }

  lemma PopFullLists(m: Memory, h: Heap, c: int, m': Memory)
    requires CachesOk(h.caches, h.slabs) && c in h.caches && h.caches[c].avail != []
    requires
      var next, next', x, full := SlabNext(m.slabAt), SlabNext(m'.slabAt), h.caches[c].avail[0], h.caches[c].full;
      && Linked(next, h.caches[c].avail) && Linked(next, full)
      && x in next' && next'[x] == NULL
      && (full != [] ==> full[|full| - 1] in next' && next'[full[|full| - 1]] == x)
      && (forall y :: y in next && y != x && (full == [] || y != full[|full| - 1]) ==>
           y in next' && next'[y] == next[y])
    ensures Linked(SlabNext(m'.slabAt), h.caches[c].avail[1..])
    ensures Linked(SlabNext(m'.slabAt), h.caches[c].full + [h.caches[c].avail[0]])
  {
    var next, next', x, full := SlabNext(m.slabAt), SlabNext(m'.slabAt), h.caches[c].avail[0], h.caches[c].full;
    var rest := h.caches[c].avail[1..];
    LinkedTail(next, h.caches[c].avail);
    DropHeadNoDup(h.caches[c].avail);
    assert x in h.caches[c].avail && HasRoom(h.slabs, x, c);
    forall i | 0 <= i < |rest| ensures rest[i] != x && HasRoom(h.slabs, rest[i], c) {
      var y := rest[i];
      assert y in rest;
    }
    forall i | 0 <= i < |full| ensures IsFull(h.slabs, full[i], c) {
      var y := full[i];
      assert y in full;
    }
    LinkedFrame(next, next', rest);
    LinkedAppend(next, next', full, x);
  }

  /** The members of a cache's lists are its own slabs, each on one list only. */
  lemma ListMembers(h: Heap, c: int)
    requires CachesOk(h.caches, h.slabs) && c in h.caches
    ensures forall i :: 0 <= i < |h.caches[c].avail| ==>
      HasRoom(h.slabs, h.caches[c].avail[i], c)
    ensures forall i :: 0 <= i < |h.caches[c].full| ==>
      IsFull(h.slabs, h.caches[c].full[i], c)
  {
    forall i | 0 <= i < |h.caches[c].avail| ensures HasRoom(h.slabs, h.caches[c].avail[i], c) {
      var y := h.caches[c].avail[i];
      assert y in h.caches[c].avail;
    }
    forall i | 0 <= i < |h.caches[c].full| ensures IsFull(h.slabs, h.caches[c].full[i], c) {
      var y := h.caches[c].full[i];
      assert y in h.caches[c].full;
    }
  }

  /** Relinking slabs of cache c, and changing c's list fields, leaves all other lists alone. */
  lemma ListsUntouched(m: Memory, h: Heap, c: int, m': Memory)
    requires CachesOk(h.caches, h.slabs) && RecordsListed(h.slabs.Keys, h.idleSlabs, h.carved, SlabRecord)
    requires Rep(m, h) && c in h.caches && c in m.cacheAt && c in m'.cacheAt
    requires m'.cacheAt == m.cacheAt[c := m'.cacheAt[c]] && m'.cacheAt[c].next == m.cacheAt[c].next
    requires forall y :: y in m.slabAt && !(y in h.slabs && h.slabs[y].owner == c) ==>
      y in m'.slabAt && m'.slabAt[y] == m.slabAt[y]
    ensures Linked(CacheNext(m'.cacheAt), h.list) && Linked(CacheNext(m'.cacheAt), h.idleCaches)
    ensures Linked(SlabNext(m'.slabAt), h.idleSlabs)
    ensures forall d :: d in h.caches && d != c ==> CacheHeld(m'.cacheAt, SlabNext(m'.slabAt), d, h.caches[d])
  {
    assert CacheNext(m'.cacheAt) == CacheNext(m.cacheAt);
    IdleSlabsFrame(SlabNext(m.slabAt), SlabNext(m'.slabAt), h);
    CachesHeldExcept(m.cacheAt, m'.cacheAt, SlabNext(m.slabAt), SlabNext(m'.slabAt), h.caches, h.slabs, c);
  }

  lemma IdleSlabsFrame(next: map<int, int>, next': map<int, int>, h: Heap)
    requires RecordsListed(h.slabs.Keys, h.idleSlabs, h.carved, SlabRecord) && Linked(next, h.idleSlabs)
    requires forall y :: y in next && y !in h.slabs ==> y in next' && next'[y] == next[y]
    ensures Linked(next', h.idleSlabs)
  {
    forall i | 0 <= i < |h.idleSlabs| && h.idleSlabs[i] in next
      ensures h.idleSlabs[i] in next' && next'[h.idleSlabs[i]] == next[h.idleSlabs[i]]
    {
      var y := h.idleSlabs[i];
      assert y in h.idleSlabs;
    }
    LinkedFrame(next, next', h.idleSlabs);
  }

  // ----- Giving a slot back -----

  lemma SlotsDiffer(x: int, size: int, k: nat, l: nat)
    requires ValidSize(size) && k != l
    ensures SlotAddr(x, size, k) != SlotAddr(x, size, l)
    ensures SlotAddr(x, size, k) < SlotAddr(x, size, l) <==> k < l
  {
    if k < l {
      SlotsOrdered(size, k, l);
    } else {
      SlotsOrdered(size, l, k);
    }
  }

  /** Threading slot k into a pristine chain at its insertion position. */
  lemma ThreadedInsert(word: map<int, int>, x: int, slab: Slab, k: nat)
    requires Threaded(word, x, slab) && SlabOk(slab) && slab.pristine && k !in slab.free
    ensures var j := InsertPos(slab.free, k, 1);
      Threaded(word[SlotAddr(x, slab.size, k) := ChainNext(x, slab, j - 1)]
                   [SlotAddr(x, slab.size, slab.free[j - 1]) := SlotAddr(x, slab.size, k)],
               x, slab.(free := Inserted(slab.free, k)))
  {
    var j, size := InsertPos(slab.free, k, 1), slab.size;
    var t := Inserted(slab.free, k);
    var slab' := slab.(free := t);
    var before := SlotAddr(x, size, slab.free[j - 1]);
    var word' := word[SlotAddr(x, size, k) := ChainNext(x, slab, j - 1)][before := SlotAddr(x, size, k)];
    assert t == slab.free[..j] + [k] + slab.free[j..];
    assert slab.free[j - 1] in slab.free;
    hide SlotAddr, InsertPos, Inserted;
    SlotsDiffer(x, size, k, slab.free[j - 1]);
    forall i | 0 <= i < |t| ensures WordAt(word', x, slab', i) {
      if i < j - 1 {
        assert WordAt(word, x, slab, i);
        assert t[i] == slab.free[i] && t[i + 1] == slab.free[i + 1] && t[i] in slab.free;
        SlotsDiffer(x, size, t[i], k);
        SlotsDiffer(x, size, t[i], slab.free[j - 1]);
      } else if i == j - 1 {
        assert t[i] == slab.free[i] && t[i + 1] == k;
      } else if i == j {
        assert t[i] == k && (i + 1 < |t| ==> t[i + 1] == slab.free[i]);
      } else {
        assert WordAt(word, x, slab, i - 1);
        assert t[i] == slab.free[i - 1] && t[i] in slab.free && (i + 1 < |t| ==> t[i + 1] == slab.free[i]);
        SlotsDiffer(x, size, t[i], k);
        SlotsDiffer(x, size, t[i], slab.free[j - 1]);
      }
    }
  }

  /** Words may change at slots of slab x only. */
  lemma SlotWordsFrame(h: Heap, word: map<int, int>, word': map<int, int>, x: int, k: nat, l: nat)
    requires Sound(h) && WordsHeld(word, h.slabs) && x in h.slabs && k < h.slabs[x].Max() && l < h.slabs[x].Max()
    requires forall a :: a != SlotAddr(x, h.slabs[x].size, k) && a != SlotAddr(x, h.slabs[x].size, l) && a in word ==>
      a in word' && word'[a] == word[a]
    ensures forall y :: y in h.slabs && y != x ==> Threaded(word', y, h.slabs[y])
  {
    SlotInSlab(x, h.slabs[x].size, k);
    SlotInSlab(x, h.slabs[x].size, l);
    WordsFrame(h, word, word', x);
  }

  lemma PushPristineRep(m: Memory, h: Heap, p: int, m': Memory)
    requires Sound(h) && Rep(m, h) && PushReady(h, p) && h.slabs[h.live[p].slab].pristine && h.live[p].slab in m.slabAt
    requires var x, slab := h.live[p].slab, h.slabs[h.live[p].slab];
      && slab.free != [] && ValidSize(slab.size)
      && var j := InsertPos(slab.free, h.live[p].slot, 1);
         m' == m.(slabAt := m.slabAt[x := m.slabAt[x].(objects := m.slabAt[x].objects - 1)],
                  word := m.word[p := ChainNext(x, slab, j - 1)][SlotAddr(x, slab.size, slab.free[j - 1]) := p])
    ensures Rep(m', Push(h, p))
  {
    var x, k := h.live[p].slab, h.live[p].slot;
    var slab, h' := h.slabs[x], Push(h, p);
    var j := InsertPos(slab.free, k, 1);
    assert Placed(h.slabs, p, h.live[p]);
    assert SlabHeld(m.slabAt, x, slab) && Threaded(m.word, x, slab) && SlabOk(slab);
    assert slab.free[j - 1] in slab.free;
    ThreadedInsert(m.word, x, slab, k);
    SlotWordsFrame(h, m.word, m'.word, x, k, slab.free[j - 1]);
    assert SlabNext(m'.slabAt) == SlabNext(m.slabAt);
    InsertedKeepsChain(slab.free, k);
    assert Inserted(slab.free, k)[0] == slab.free[0];
    forall y | y in h'.slabs ensures SlabHeld(m'.slabAt, y, h'.slabs[y]) && Threaded(m'.word, y, h'.slabs[y]) {
      assert y != x ==> SlabHeld(m.slabAt, y, h.slabs[y]);
    }
  }

  lemma PushFullLists(next: map<int, int>, next': map<int, int>, avail: seq<int>, full: seq<int>,
    slabs: map<int, Slab>, c: int)
    requires Linked(next, avail) && Linked(next, full) && NoDup(avail) && NoDup(full) && full != []
    requires forall i {:trigger avail[i]} :: 0 <= i < |avail| ==> HasRoom(slabs, avail[i], c)
    requires forall i {:trigger full[i]} :: 0 <= i < |full| ==> IsFull(slabs, full[i], c)
    requires var x := full[|full| - 1];
      && x in next' && next'[x] == NULL
      && (|full| > 1 ==> full[|full| - 2] in next' && next'[full[|full| - 2]] == NULL)
      && (avail != [] ==> avail[|avail| - 1] in next' && next'[avail[|avail| - 1]] == x)
      && (forall y ::
           (y in next && y != x && (|full| == 1 || y != full[|full| - 2])
           && (avail == [] || y != avail[|avail| - 1])) ==>
             y in next' && next'[y] == next[y])
    ensures Linked(next', avail + [full[|full| - 1]]) && Linked(next', RemoveAt(full, |full| - 1))
  {
    var x, i := full[|full| - 1], |full| - 1;
    forall j | 0 <= j < |full| && j != i && j != i - 1 && full[j] in next
      ensures full[j] in next' && next'[full[j]] == next[full[j]]
    {
      var y := full[j];
      assert IsFull(slabs, y, c);
      assert avail != [] ==> HasRoom(slabs, avail[|avail| - 1], c);
    }
    LinkedRemove(next, next', full, i);
    forall j | 0 <= j < |avail| - 1 && avail[j] in next
      ensures avail[j] in next' && next'[avail[j]] == next[avail[j]]
    {
      var y := avail[j];
      assert HasRoom(slabs, y, c);
      assert IsFull(slabs, x, c) && (|full| > 1 ==> IsFull(slabs, full[|full| - 2], c));
    }
    LinkedAppend(next, next', avail, x);
  }

  /** Push and the memory it needs find p's slab in use by its own cache. */
  lemma FullSlabsOwned(h: Heap, p: int)
    requires Sound(h) && InDomain(h, p) && h.slabs[h.live[p].slab].free == []
    ensures var c := h.slabs[h.live[p].slab].owner;
      c in h.caches && NoDup(h.caches[c].avail) && NoDup(h.caches[c].full)
    ensures CachesOk(h.caches, h.slabs) && RecordsListed(h.slabs.Keys, h.idleSlabs, h.carved, SlabRecord)
  {
  }

  lemma PushFullSlabs(m: Memory, h: Heap, p: int, slabAt': map<int, SlabRec>)
    requires Sound(h) && SlabsHeld(m.slabAt, h.slabs) && WordsHeld(m.word, h.slabs)
    requires PushReady(h, p) && h.slabs[h.live[p].slab].free == []
    requires h.live[p].slab in m.slabAt && h.live[p].slab in slabAt'
    requires slabAt'[h.live[p].slab]
      == m.slabAt[h.live[p].slab].(next := NULL, objects := m.slabAt[h.live[p].slab].objects - 1, firstFree := p)
    requires forall y :: y in m.slabAt && y != h.live[p].slab ==>
      y in slabAt' && slabAt'[y].(next := 0) == m.slabAt[y].(next := 0)
    ensures SlabsHeld(slabAt', Push(h, p).slabs) && WordsHeld(m.word[p := NULL], Push(h, p).slabs)
  {
    var x, k := h.live[p].slab, h.live[p].slot;
    var slabs', word' := Push(h, p).slabs, m.word[p := NULL];
    assert Placed(h.slabs, p, h.live[p]);
    SlotWordsFrame(h, m.word, word', x, k, k);
    assert SlabHeld(m.slabAt, x, h.slabs[x]);
    assert WordAt(word', x, slabs'[x], 0);
    forall y | y in slabs' ensures SlabHeld(slabAt', y, slabs'[y]) && Threaded(word', y, slabs'[y]) {
      assert y != x ==> SlabHeld(m.slabAt, y, h.slabs[y]);
    }
  }

  lemma LastIndex(s: seq<int>)
    requires NoDup(s) && s != []
    ensures Index(s, s[|s| - 1]) == |s| - 1
  {
  }

  // ----- Retiring -----

  lemma UnlinkToIdle(next: map<int, int>, next': map<int, int>, avail: seq<int>, full: seq<int>, idle: seq<int>, i: nat)
    requires Linked(next, avail) && Linked(next, full) && Linked(next, idle)
    requires NoDup(avail) && NoDup(idle) && i < |avail|
    requires forall j {:trigger full[j]} :: 0 <= j < |full| ==> full[j] !in avail && full[j] !in idle
    requires forall j {:trigger idle[j]} :: 0 <= j < |idle| ==> idle[j] !in avail
    requires var x := avail[i];
      && x in next' && next'[x] == NULL
      && (i > 0 ==> avail[i - 1] in next' && next'[avail[i - 1]] == NextIn(avail, i))
      && (idle != [] ==> idle[|idle| - 1] in next' && next'[idle[|idle| - 1]] == x)
      && (forall y :: y in next && y != x && (i == 0 || y != avail[i - 1]) && (idle == [] || y != idle[|idle| - 1]) ==>
           y in next' && next'[y] == next[y])
    ensures Linked(next', RemoveAt(avail, i)) && Linked(next', full) && Linked(next', idle + [avail[i]])
  {
    var x := avail[i];
    assert x in avail && (i > 0 ==> avail[i - 1] in avail) && (idle != [] ==> idle[|idle| - 1] in idle);
    forall j | 0 <= j < |avail| && j != i && j != i - 1 && avail[j] in next
      ensures avail[j] in next' && next'[avail[j]] == next[avail[j]]
    {
      var y := avail[j];
      assert y in avail;
    }
    LinkedRemove(next, next', avail, i);
    forall j | 0 <= j < |full| && full[j] in next ensures full[j] in next' && next'[full[j]] == next[full[j]] {
      var y := full[j];
    }
    LinkedFrame(next, next', full);
    forall j | 0 <= j < |idle| - 1 && idle[j] in next ensures idle[j] in next' && next'[idle[j]] == next[idle[j]] {
      var y := idle[j];
    }
    LinkedAppend(next, next', idle, x);
  }

  lemma UnlinkSlabToIdle(slabAt: map<int, SlabRec>, slabAt': map<int, SlabRec>, avail: seq<int>, full: seq<int>,
    idle: seq<int>, i: nat)
    requires Linked(SlabNext(slabAt), avail) && Linked(SlabNext(slabAt), full) && Linked(SlabNext(slabAt), idle)
    requires NoDup(avail) && NoDup(idle) && i < |avail|
    requires forall j {:trigger full[j]} :: 0 <= j < |full| ==> full[j] !in avail && full[j] !in idle
    requires forall j {:trigger idle[j]} :: 0 <= j < |idle| ==> idle[j] !in avail
    requires var x := avail[i];
      && x in slabAt' && slabAt'[x].next == NULL
      && (i > 0 ==> avail[i - 1] in slabAt' && slabAt'[avail[i - 1]].next == NextIn(avail, i))
      && (idle != [] ==> idle[|idle| - 1] in slabAt' && slabAt'[idle[|idle| - 1]].next == x)
      && (forall y ::
           (y in slabAt && y != x && (i == 0 || y != avail[i - 1])
           && (idle == [] || y != idle[|idle| - 1])) ==>
             y in slabAt' && slabAt'[y] == slabAt[y])
    ensures Linked(SlabNext(slabAt'), RemoveAt(avail, i)) && Linked(SlabNext(slabAt'), full)
    ensures Linked(SlabNext(slabAt'), idle + [avail[i]])
  {
    UnlinkToIdle(SlabNext(slabAt), SlabNext(slabAt'), avail, full, idle, i);
  }

  lemma SameCacheLinks(cacheAt: map<int, CacheRec>, c: int, rec: CacheRec)
    requires c in cacheAt && rec.next == cacheAt[c].next
    ensures CacheNext(cacheAt[c := rec]) == CacheNext(cacheAt)
  {
  }

  lemma RetireOthers(m: Memory, h: Heap, x: int, m': Memory)
    requires CachesOk(h.caches, h.slabs) && CachesHeld(m.cacheAt, SlabNext(m.slabAt), h.caches)
    requires SlabsHeld(m.slabAt, h.slabs) && WordsHeld(m.word, h.slabs)
    requires x in h.slabs && h.slabs[x].owner in m.cacheAt && h.slabs[x].owner in m'.cacheAt
    requires h.idleSlabs != [] ==> h.idleSlabs[|h.idleSlabs| - 1] !in h.slabs
    requires m'.cacheAt == m.cacheAt[h.slabs[x].owner := m'.cacheAt[h.slabs[x].owner]] && m'.word == m.word
    requires forall y :: y in m.slabAt && y != x ==>
      y in m'.slabAt && m'.slabAt[y].(next := 0) == m.slabAt[y].(next := 0)
    requires forall y :: y in m.slabAt && y in h.slabs && h.slabs[y].owner != h.slabs[x].owner ==>
      m'.slabAt[y] == m.slabAt[y]
    ensures forall d :: d in h.caches && d != h.slabs[x].owner ==>
      CacheHeld(m'.cacheAt, SlabNext(m'.slabAt), d, h.caches[d])
    ensures SlabsHeld(m'.slabAt, h.slabs - {x}) && WordsHeld(m'.word, h.slabs - {x})
  {
    CachesHeldExcept(m.cacheAt, m'.cacheAt, SlabNext(m.slabAt), SlabNext(m'.slabAt), h.caches, h.slabs,
      h.slabs[x].owner);
    forall y | y in h.slabs && y != x ensures SlabHeld(m'.slabAt, y, h.slabs[y]) && Threaded(m'.word, y, h.slabs[y]) {
      assert SlabHeld(m.slabAt, y, h.slabs[y]) && Threaded(m.word, y, h.slabs[y]);
    }
  }

  lemma IdleApart(h: Heap, c: int)
    requires Sound(h) && c in h.caches
    ensures forall j {:trigger h.idleSlabs[j]} :: 0 <= j < |h.idleSlabs| ==>
      h.idleSlabs[j] !in h.slabs && h.idleSlabs[j] !in h.caches[c].avail
    ensures forall j {:trigger h.caches[c].full[j]} :: 0 <= j < |h.caches[c].full| ==>
      h.caches[c].full[j] !in h.caches[c].avail && h.caches[c].full[j] !in h.idleSlabs
  {
    forall j | 0 <= j < |h.idleSlabs| ensures h.idleSlabs[j] !in h.slabs && h.idleSlabs[j] !in h.caches[c].avail {
      var y := h.idleSlabs[j];
      assert y in h.idleSlabs;
      assert y in h.caches[c].avail ==> HasRoom(h.slabs, y, c);
    }
    forall j | 0 <= j < |h.caches[c].full|
      ensures h.caches[c].full[j] !in h.caches[c].avail && h.caches[c].full[j] !in h.idleSlabs
    {
      var y := h.caches[c].full[j];
      assert y in h.caches[c].full;
      assert IsFull(h.slabs, y, c);
      assert y in h.caches[c].avail ==> HasRoom(h.slabs, y, c);
    }
  }

  /** What free reads of an emptied slab's list and of the idle list. */
  lemma AvailAndIdleHeld(m: Memory, h: Heap, x: int)
    requires Rep(m, h) && Sound(h) && RetireReady(h, x)
    ensures var c := h.slabs[x].owner;
      && c in m.cacheAt
      && var avail, idle := h.caches[c].avail, h.idleSlabs;
        && NoDup(avail) && NonNull(avail) && m.cacheAt[c].avail == First(avail) && Linked(SlabNext(m.slabAt), avail)
        && x in m.slabAt && m.slabAt[x].next == NextIn(avail, Index(avail, x))
        && NonNull(idle) && m.idleSlab == First(idle) && Linked(SlabNext(m.slabAt), idle)
        && (forall i {:trigger idle[i]} :: 0 <= i < |idle| ==> idle[i] !in avail)
  {
    var c := h.slabs[x].owner;
    NullNowhere(h);
    IdleApart(h, c);
    assert CacheHeld(m.cacheAt, SlabNext(m.slabAt), c, h.caches[c]);
    assert LinkAt(SlabNext(m.slabAt), h.caches[c].avail, Index(h.caches[c].avail, x));
  }

  lemma ListAndIdleHeld(m: Memory, h: Heap, c: int)
    requires Rep(m, h) && Sound(h) && c in h.list
    ensures var list, idle := h.list, h.idleCaches;
      && NoDup(list) && NonNull(list) && m.firstCache == First(list) && Linked(CacheNext(m.cacheAt), list)
      && c in m.cacheAt && m.cacheAt[c].next == NextIn(list, Index(list, c))
      && NonNull(idle) && m.idleCache == First(idle) && Linked(CacheNext(m.cacheAt), idle)
      && (forall i {:trigger idle[i]} :: 0 <= i < |idle| ==> idle[i] !in list)
  {
    NullNowhere(h);
    assert LinkAt(CacheNext(m.cacheAt), h.list, Index(h.list, c));
    forall i | 0 <= i < |h.idleCaches| ensures h.idleCaches[i] !in h.list {
      var d := h.idleCaches[i];
      assert d in h.idleCaches;
      assert d in h.list ==> d in h.caches;
    }
  }

  /** What free reads of the two lists around p's full slab. */
  lemma FullListsHeld(m: Memory, h: Heap, p: int)
    requires Rep(m, h) && Sound(h) && InDomain(h, p) && h.slabs[h.live[p].slab].free == []
    ensures var x := h.live[p].slab;
      var c := h.slabs[x].owner;
      && c in h.caches && c in m.cacheAt
      && var avail, full := h.caches[c].avail, h.caches[c].full;
        && full != [] && full[|full| - 1] == x && NoDup(full) && m.cacheAt[c].full == full[0]
        && Linked(SlabNext(m.slabAt), full) && x in m.slabAt && m.slabAt[x].next == NULL
        && Linked(SlabNext(m.slabAt), avail) && NonNull(avail) && m.cacheAt[c].avail == First(avail)
        && (forall i {:trigger avail[i]} :: 0 <= i < |avail| ==> avail[i] !in full)
  {
    var x := h.live[p].slab;
    var c := h.slabs[x].owner;
    NullNowhere(h);
    ListMembers(h, c);
    assert CacheHeld(m.cacheAt, SlabNext(m.slabAt), c, h.caches[c]);
    var avail, full := h.caches[c].avail, h.caches[c].full;
    assert LinkAt(SlabNext(m.slabAt), full, |full| - 1);
    forall i | 0 <= i < |avail| ensures avail[i] !in full {
      var y := avail[i];
      assert HasRoom(h.slabs, y, c);
      assert y in full ==> IsFull(h.slabs, y, c);
    }
  }

  /** Moving x from position i of one list to the end of another changes at most three `next` fields. */
  lemma SlabMoved(slabAt: map<int, SlabRec>, from: seq<int>, i: nat, x: int, to: seq<int>)
    requires i < |from| && from[i] == x && NoDup(from) && x in slabAt
    requires Linked(SlabNext(slabAt), from) && Linked(SlabNext(slabAt), to)
    requires forall j {:trigger to[j]} :: 0 <= j < |to| ==> to[j] !in from
    ensures var slabAt' := AppendSlab(SetSlabNext(UnlinkSlab(slabAt, from, i), x, NULL), to, x);
      && slabAt'.Keys == slabAt.Keys && slabAt'[x] == slabAt[x].(next := NULL)
      && (i > 0 ==> from[i - 1] in slabAt' && slabAt'[from[i - 1]].next == NextIn(from, i))
      && (to != [] ==> to[|to| - 1] in slabAt' && slabAt'[to[|to| - 1]].next == x)
      && (forall y :: y in slabAt && y != x ==> slabAt'[y].(next := 0) == slabAt[y].(next := 0))
      && (forall y :: y in slabAt && y != x && (i == 0 || y != from[i - 1]) && (to == [] || y != to[|to| - 1]) ==>
           slabAt'[y] == slabAt[y])
  {
    assert x in from;
    if i > 0 {
      assert LinkAt(SlabNext(slabAt), from, i - 1);
      var y := from[i - 1];
      assert y in from;
    }
    if to != [] {
      assert LinkAt(SlabNext(slabAt), to, |to| - 1);
      var y := to[|to| - 1];
      assert y !in from;
    }
  }

  lemma CacheMoved(cacheAt: map<int, CacheRec>, from: seq<int>, i: nat, x: int, to: seq<int>)
    requires i < |from| && from[i] == x && NoDup(from) && x in cacheAt
    requires Linked(CacheNext(cacheAt), from) && Linked(CacheNext(cacheAt), to)
    requires forall j {:trigger to[j]} :: 0 <= j < |to| ==> to[j] !in from
    ensures var cacheAt' := AppendCache(SetCacheNext(UnlinkCache(cacheAt, from, i), x, NULL), to, x);
      && cacheAt'.Keys == cacheAt.Keys && cacheAt'[x] == cacheAt[x].(next := NULL)
      && (i > 0 ==> from[i - 1] in cacheAt' && cacheAt'[from[i - 1]].next == NextIn(from, i))
      && (to != [] ==> to[|to| - 1] in cacheAt' && cacheAt'[to[|to| - 1]].next == x)
      && (forall y :: y in cacheAt && y != x ==> cacheAt'[y].(next := 0) == cacheAt[y].(next := 0))
      && (forall y :: y in cacheAt && y != x && (i == 0 || y != from[i - 1]) && (to == [] || y != to[|to| - 1]) ==>
           cacheAt'[y] == cacheAt[y])
  {
    assert x in from;
    if i > 0 {
      assert LinkAt(CacheNext(cacheAt), from, i - 1);
      var y := from[i - 1];
      assert y in from;
    }
    if to != [] {
      assert LinkAt(CacheNext(cacheAt), to, |to| - 1);
      var y := to[|to| - 1];
      assert y !in from;
    }
  }

  /** Memory after an emptied slab has left its cache's available list for the end of the idle list. */
  function SlabReleased(m: Memory, h: Heap, x: int): Memory
    requires RetireReady(h, x) && h.slabs[x].owner in m.cacheAt
  {
    var c := h.slabs[x].owner;
    var avail, idle := h.caches[c].avail, h.idleSlabs;
    var i := Index(avail, x);
    m.(slabAt := AppendSlab(SetSlabNext(UnlinkSlab(m.slabAt, avail, i), x, NULL), idle, x),
       idleSlab := if idle == [] then x else idle[0],
       cacheAt := m.cacheAt[c := m.cacheAt[c].(avail := if i == 0 then NextIn(avail, 0) else avail[0])])
  }

  lemma SlabReleasedChanges(m: Memory, h: Heap, x: int)
    requires Sound(h) && Rep(m, h) && RetireReady(h, x) && h.slabs[x].owner in m.cacheAt
    ensures x in m.slabAt
    ensures var slabAt' := SlabReleased(m, h, x).slabAt;
      var avail, idle := h.caches[h.slabs[x].owner].avail, h.idleSlabs;
      var i := Index(avail, x);
      && slabAt'.Keys == m.slabAt.Keys && slabAt'[x] == m.slabAt[x].(next := NULL)
      && (i > 0 ==> avail[i - 1] in slabAt' && slabAt'[avail[i - 1]].next == NextIn(avail, i))
      && (idle != [] ==> idle[|idle| - 1] in slabAt' && slabAt'[idle[|idle| - 1]].next == x)
      && (forall y :: y in m.slabAt && y != x ==> slabAt'[y].(next := 0) == m.slabAt[y].(next := 0))
      && (forall y ::
           (y in m.slabAt && y != x && (i == 0 || y != avail[i - 1])
           && (idle == [] || y != idle[|idle| - 1])) ==>
             slabAt'[y] == m.slabAt[y])
  {
    var avail := h.caches[h.slabs[x].owner].avail;
    AvailAndIdleHeld(m, h, x);
    hide Sound, Rep;
    SlabMoved(m.slabAt, avail, Index(avail, x), x, h.idleSlabs);
    hide UnlinkSlab, AppendSlab, SetSlabNext;
  }

  lemma RetireSlabOthers(m: Memory, h: Heap, x: int)
    requires Sound(h) && Rep(m, h) && RetireReady(h, x) && h.slabs[x].free != [] && h.slabs[x].owner in m.cacheAt
    ensures var c, m' := h.slabs[x].owner, SlabReleased(m, h, x);
      && (forall d :: d in h.caches && d != c ==> CacheHeld(m'.cacheAt, SlabNext(m'.slabAt), d, h.caches[d]))
      && SlabsHeld(m'.slabAt, h.slabs - {x}) && WordsHeld(m'.word, h.slabs - {x})
  {
    var c := h.slabs[x].owner;
    SlabReleasedChanges(m, h, x);
    ListMembers(h, c);
    IdleApart(h, c);
    hide UnlinkSlab, AppendSlab, SetSlabNext;
    RetireOthers(m, h, x, SlabReleased(m, h, x));
  }

  lemma RetireSlabRep(m: Memory, h: Heap, x: int)
    requires Sound(h) && Rep(m, h) && RetireReady(h, x) && h.slabs[x].free != [] && h.slabs[x].owner in m.cacheAt
    ensures Rep(SlabReleased(m, h, x), RetireSlab(h, x))
  {
    var c, m' := h.slabs[x].owner, SlabReleased(m, h, x);
    var avail, full, idle := h.caches[c].avail, h.caches[c].full, h.idleSlabs;
    SlabReleasedChanges(m, h, x);
    RetireSlabOthers(m, h, x);
    AvailAndIdleHeld(m, h, x);
    IdleApart(h, c);
    assert CacheHeld(m.cacheAt, SlabNext(m.slabAt), c, h.caches[c]);
    hide Sound, UnlinkSlab, AppendSlab, SetSlabNext, SlabsHeld, WordsHeld;
    UnlinkSlabToIdle(m.slabAt, m'.slabAt, avail, full, idle, Index(avail, x));
    SameCacheLinks(m.cacheAt, c, m'.cacheAt[c]);
  }

  /** Memory after an emptied cache has left the cache list for the end of the idle list. */
  function CacheReleased(m: Memory, h: Heap, c: int): Memory
    requires c in h.list
  {
    var list, idle := h.list, h.idleCaches;
    var i := Index(list, c);
    m.(cacheAt := AppendCache(SetCacheNext(UnlinkCache(m.cacheAt, list, i), c, NULL), idle, c),
       idleCache := if idle == [] then c else idle[0],
       firstCache := if i == 0 then NextIn(list, 0) else list[0])
  }

  lemma RetireCacheRep(m: Memory, h: Heap, c: int)
    requires Sound(h) && Rep(m, h) && c in h.list
    ensures Rep(CacheReleased(m, h, c), RetireCache(h, c))
  {
    var m', h' := CacheReleased(m, h, c), RetireCache(h, c);
    var list, idle, i := h.list, h.idleCaches, Index(h.list, c);
    ListAndIdleHeld(m, h, c);
    CacheMoved(m.cacheAt, list, i, c, idle);
    hide Sound, UnlinkCache, AppendCache, SetCacheNext;
    UnlinkToIdle(CacheNext(m.cacheAt), CacheNext(m'.cacheAt), list, [], idle, i);
    CachesHeldFrame(m.cacheAt, m'.cacheAt, SlabNext(m.slabAt), h'.caches);
  }

  /**
   Memory after the last full slab of its cache has gone, with p its one free slot, to the end of the available list.
   */
  function FullMoved(m: Memory, h: Heap, p: int): Memory
    requires p in h.live && h.live[p].slab in h.slabs && h.slabs[h.live[p].slab].owner in h.caches
    requires h.slabs[h.live[p].slab].owner in m.cacheAt && h.live[p].slab in m.slabAt
    requires h.caches[h.slabs[h.live[p].slab].owner].full != []
  {
    var x, c := h.live[p].slab, h.slabs[h.live[p].slab].owner;
    var avail, full := h.caches[c].avail, h.caches[c].full;
    var marked := m.slabAt[x := m.slabAt[x].(firstFree := p, objects := m.slabAt[x].objects - 1)];
    m.(slabAt := AppendSlab(SetSlabNext(UnlinkSlab(marked, full, |full| - 1), x, NULL), avail, x),
       word := m.word[p := NULL],
       cacheAt := m.cacheAt[c := m.cacheAt[c].(
         avail := if avail == [] then x else avail[0], full := if |full| == 1 then NULL else full[0])])
  }

  /** Which records FullMoved changes, and how. */
  lemma FullMovedChanges(m: Memory, h: Heap, p: int)
    requires Sound(h) && Rep(m, h) && InDomain(h, p) && h.slabs[h.live[p].slab].free == []
    requires h.slabs[h.live[p].slab].owner in m.cacheAt && h.live[p].slab in m.slabAt
    ensures var x, slabAt' := h.live[p].slab, FullMoved(m, h, p).slabAt;
      var avail, full := h.caches[h.slabs[x].owner].avail, h.caches[h.slabs[x].owner].full;
      && slabAt'.Keys == m.slabAt.Keys
      && slabAt'[x] == m.slabAt[x].(next := NULL, objects := m.slabAt[x].objects - 1, firstFree := p)
      && (|full| > 1 ==> full[|full| - 2] in slabAt' && slabAt'[full[|full| - 2]].next == NULL)
      && (avail != [] ==> avail[|avail| - 1] in slabAt' && slabAt'[avail[|avail| - 1]].next == x)
      && (forall y :: y in m.slabAt && y != x ==> slabAt'[y].(next := 0) == m.slabAt[y].(next := 0))
      && (forall y ::
           (y in m.slabAt && y != x && (|full| == 1 || y != full[|full| - 2])
           && (avail == [] || y != avail[|avail| - 1])) ==>
             slabAt'[y] == m.slabAt[y])
  {
    var x, c := h.live[p].slab, h.slabs[h.live[p].slab].owner;
    FullListsHeld(m, h, p);
    hide Sound, Rep;
    var marked := m.slabAt[x := m.slabAt[x].(firstFree := p, objects := m.slabAt[x].objects - 1)];
    assert SlabNext(marked) == SlabNext(m.slabAt);
    SlabMoved(marked, h.caches[c].full, |h.caches[c].full| - 1, x, h.caches[c].avail);
    hide UnlinkSlab, AppendSlab, SetSlabNext;
  }

  lemma PushFullOthers(m: Memory, h: Heap, p: int)
    requires Sound(h) && Rep(m, h) && PushReady(h, p) && InDomain(h, p) && h.slabs[h.live[p].slab].free == []
    requires h.slabs[h.live[p].slab].owner in m.cacheAt && h.live[p].slab in m.slabAt
    ensures var c, m' := h.slabs[h.live[p].slab].owner, FullMoved(m, h, p);
      && Linked(CacheNext(m'.cacheAt), h.list) && Linked(CacheNext(m'.cacheAt), h.idleCaches)
      && Linked(SlabNext(m'.slabAt), h.idleSlabs)
      && (forall d :: d in h.caches && d != c ==> CacheHeld(m'.cacheAt, SlabNext(m'.slabAt), d, h.caches[d]))
      && SlabsHeld(m'.slabAt, Push(h, p).slabs) && WordsHeld(m'.word, Push(h, p).slabs)
  {
    var c, m' := h.slabs[h.live[p].slab].owner, FullMoved(m, h, p);
    FullMovedChanges(m, h, p);
    ListMembers(h, c);
    hide UnlinkSlab, AppendSlab, SetSlabNext;
    PushFullSlabs(m, h, p, m'.slabAt);
    hide Push, SlabsHeld, WordsHeld;
    ListsUntouched(m, h, c, m');
  }

  lemma PushFullRep(m: Memory, h: Heap, p: int)
    requires Sound(h) && Rep(m, h) && PushReady(h, p) && InDomain(h, p) && h.slabs[h.live[p].slab].free == []
    requires h.slabs[h.live[p].slab].owner in m.cacheAt && h.live[p].slab in m.slabAt
    ensures Rep(FullMoved(m, h, p), Push(h, p))
  {
    var x, c := h.live[p].slab, h.slabs[h.live[p].slab].owner;
    var avail, full := h.caches[c].avail, h.caches[c].full;
    FullListsHeld(m, h, p);
    FullMovedChanges(m, h, p);
    PushFullOthers(m, h, p);
    FullSlabsOwned(h, p);
    ListMembers(h, c);
    LastIndex(full);
    hide Sound, UnlinkSlab, AppendSlab, SetSlabNext, SlabsHeld, WordsHeld;
    PushFullLists(SlabNext(m.slabAt), SlabNext(FullMoved(m, h, p).slabAt), avail, full, h.slabs, c);
  }
}
