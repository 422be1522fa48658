/**
 Where free, as written, stops being correct.  The condition InDomain is exact: for every live object outside
 it, the code either reads through a null pointer or runs one list of slabs into another.
 */
module FreeLimits {
  import opened Machine
  import opened Lists
  import opened Chains
  import opened HeapSpec
  import opened HeapInvariants
  import opened HeapTheorems
  import opened HeapRep
  import opened HeapRepSteps
  import HM = HeapMem
  import HS = HeapSafety

  // ----- The walk along the free chain -----

  /** The n-th address the walk of _check_slab_for_pointer reads through, starting at obj; None if it has stopped. */
  function WalkRead(word: map<int, int>, obj: int, alloc: int, n: nat): Option<int>
    decreases n
  {
    if n == 0 then Some(obj)
    else if obj in word && !(word[obj] > alloc) && obj != NULL then WalkRead(word, word[obj], alloc, n - 1)
    else None
  }

  ghost predicate WalkReadsNull(m: Memory, h: Heap, p: int)
    requires p in h.live && h.live[p].slab in m.slabAt
  {
    exists n :: WalkRead(m.word, m.slabAt[h.live[p].slab].firstFree, p, n) == Some(NULL)
  }

  /** On a slab with free slots the walk reads through NULL exactly when the slab has been full since it was set up. */
  lemma WalkReadsNullIff(m: Memory, h: Heap, p: int)
    requires Rep(m, h) && Inv(h) && p in h.live && h.live[p].slab in h.slabs && h.slabs[h.live[p].slab].free != []
    ensures h.live[p].slab in m.slabAt
    ensures WalkReadsNull(m, h, p) <==> !h.slabs[h.live[p].slab].pristine
  {
    var x := h.live[p].slab;
    var slab := h.slabs[x];
    assert SlabHeld(m.slabAt, x, slab) && Threaded(m.word, x, slab) && SlabOk(slab);
    if slab.pristine {
      forall n: nat ensures WalkRead(m.word, m.slabAt[x].firstFree, p, n) != Some(NULL) {
        PristineWalk(m, h, p, 0, n);
      }
    } else {
      assert WordAt(m.word, x, slab, 0);
      var a := SlotAddr(x, slab.size, slab.free[0]);
      HM.SlotPositive(h, x, 0);
      assert Placed(h.slabs, p, h.live[p]);
      HM.SlabPositive(h, x);
      SlotInSlab(x, slab.size, h.live[p].slot);
      assert m.word[a] == NULL;
      assert WalkRead(m.word, a, p, 1) == WalkRead(m.word, NULL, p, 0);
    }
  }

  lemma {:induction false} PristineWalk(m: Memory, h: Heap, p: int, i: nat, n: nat)
    requires Rep(m, h) && Inv(h) && p in h.live && h.live[p].slab in h.slabs && h.slabs[h.live[p].slab].pristine
    requires i < |h.slabs[h.live[p].slab].free|
    ensures var x := h.live[p].slab;
      WalkRead(m.word, SlotAddr(x, h.slabs[x].size, h.slabs[x].free[i]), p, n)
      != Some(NULL)
    decreases n
  {
    var x := h.live[p].slab;
    var slab := h.slabs[x];
    HM.ChainCompares(h, p, i);
    assert Threaded(m.word, x, slab) && WordAt(m.word, x, slab, i);
    if n > 0 && ChainNext(x, slab, i) <= p {
      PristineWalk(m, h, p, i + 1, n - 1);
    }
  }

  // ----- The move from the full list to the available list -----

  /**
   The `next` fields after free has moved the full slab at position i, which it does without clearing that slab's own.
   */
  function Relinked(slabAt: map<int, SlabRec>, full: seq<int>, i: nat, avail: seq<int>): map<int, SlabRec>
    requires i < |full|
  {
    AppendSlab(UnlinkSlab(slabAt, full, i), avail, full[i])
  }

  ghost predicate TwoLists(slabAt: map<int, SlabRec>, full: seq<int>, avail: seq<int>) {
    && Linked(SlabNext(slabAt), full) && Linked(SlabNext(slabAt), avail) && NonNull(full) && NoDup(full) && NoDup(avail)
    && (forall x :: x in avail ==> x !in full)
  }

  /** The `next` fields of the members after the move. */
  lemma RelinkedNext(slabAt: map<int, SlabRec>, full: seq<int>, i: nat, avail: seq<int>)
    requires TwoLists(slabAt, full, avail) && i < |full|
    ensures forall j {:trigger full[j]} :: 0 <= j < |full| ==>
      && full[j] in slabAt
      && Relinked(slabAt, full, i, avail)[full[j]].next == NextIn(full, if j + 1 == i then i else j)
    ensures forall j {:trigger avail[j]} :: 0 <= j < |avail| ==>
      && avail[j] in slabAt
      && Relinked(slabAt, full, i, avail)[avail[j]].next == if j + 1 == |avail| then full[i] else NextIn(avail, j)
    ensures Relinked(slabAt, full, i, avail).Keys == slabAt.Keys
  {
    var next := SlabNext(slabAt);
    forall j | 0 <= j < |full|
      ensures full[j] in slabAt && slabAt[full[j]].next == NextIn(full, j) && full[j] !in avail
    {
      assert LinkAt(next, full, j);
      var y := full[j];
      assert y in full;
    }
    forall j | 0 <= j < |avail|
      ensures avail[j] in slabAt && slabAt[avail[j]].next == NextIn(avail, j) && avail[j] !in full
    {
      assert LinkAt(next, avail, j);
      var y := avail[j];
      assert y in avail;
    }
  }

  /**
   The moved slab is the end of the available list exactly when it was the last full one.  Otherwise the
   available list runs on through the full slabs behind it, which are still on the full list.
   */
  lemma AvailableListIff(slabAt: map<int, SlabRec>, full: seq<int>, i: nat, avail: seq<int>)
    requires TwoLists(slabAt, full, avail) && i < |full|
    ensures Linked(SlabNext(Relinked(slabAt, full, i, avail)), avail + full[i..])
    ensures Linked(SlabNext(Relinked(slabAt, full, i, avail)), avail + [full[i]]) <==> i == |full| - 1
  {
    RelinkedNext(slabAt, full, i, avail);
    var next' := SlabNext(Relinked(slabAt, full, i, avail));
    hide Relinked, TwoLists;
    var t := avail + full[i..];
    forall j | 0 <= j < |t| ensures LinkAt(next', t, j) {
      if j < |avail| {
        assert t[j] == avail[j];
      } else {
        assert t[j] == full[i + (j - |avail|)];
        assert j + 1 < |t| ==> t[j + 1] == full[i + (j - |avail|) + 1];
      }
    }
    if i == |full| - 1 {
      assert t == avail + [full[i]];
    } else {
      assert !LinkAt(next', avail + [full[i]], |avail|);
    }
  }

  // ----- InDomain is exact -----

  /** What goes wrong: the walk reads through NULL, or the available list does not end at the freed object's slab. */
  ghost predicate FreeGoesWrong(m: Memory, h: Heap, p: int)
    requires Inv(h) && Rep(m, h) && p in h.live
  {
    PlacedInUse(m, h, p);
    var x := h.live[p].slab;
    var cache := h.caches[h.slabs[x].owner];
    if h.slabs[x].free != [] then WalkReadsNull(m, h, p)
    else !Linked(SlabNext(Relinked(m.slabAt, cache.full, Index(cache.full, x), cache.avail)), cache.avail + [x])
  }

  lemma PlacedInUse(m: Memory, h: Heap, p: int)
    requires Inv(h) && Rep(m, h) && p in h.live
    ensures var x := h.live[p].slab;
      && x in h.slabs && x in m.slabAt && h.slabs[x].owner in h.caches
      && (h.slabs[x].free == [] ==> x in h.caches[h.slabs[x].owner].full)
  {
    PushEnabled(h, p);
    assert SlabHeld(m.slabAt, h.live[p].slab, h.slabs[h.live[p].slab]);
  }

  /** Freeing a live object goes right exactly when it is in domain. */
  lemma InDomainExact(m: Memory, h: Heap, p: int)
    requires Inv(h) && Rep(m, h) && p in h.live
    ensures InDomain(h, p) <==> !FreeGoesWrong(m, h, p)
  {
    PlacedInUse(m, h, p);
    var x := h.live[p].slab;
    if h.slabs[x].free != [] {
      WalkReadsNullIff(m, h, p);
    } else {
      var c := h.slabs[x].owner;
      var avail, full := h.caches[c].avail, h.caches[c].full;
      assert CacheHeld(m.cacheAt, SlabNext(m.slabAt), c, h.caches[c]);
      NullNowhere(h);
      forall y | y in avail ensures y !in full {
        assert HasRoom(h.slabs, y, c);
        assert y in full ==> IsFull(h.slabs, y, c);
      }
      AvailableListIff(m.slabAt, full, Index(full, x), avail);
    }
  }

  // ----- Two short programs -----

  /** Once a full slab has got one object back, none of its other objects may be freed until it is full again. */
  lemma SecondFreeOutOfDomain(h: Heap, p: int, q: int)
    requires Inv(h) && InDomain(h, p) && q in h.live && p != q && h.live[q].slab == h.live[p].slab
    requires h.slabs[h.live[p].slab].free == []
    ensures q in FreeStep(h, p).live && !InDomain(FreeStep(h, p), q)
  {
    PushSound(h, p);
    var x, h1 := h.live[p].slab, Push(h, p);
    assert Placed(h.slabs, p, h.live[p]) && Placed(h.slabs, q, h.live[q]);
    assert h.slabs[x].Max() > 1;
    assert h1.slabs[x].free == [h.live[p].slot] && !h1.slabs[x].pristine;
  }

  /** An object that fills its slab: the slab goes straight to the end of the full list. */
  lemma WholeSlabTaken(h: Heap, c: int)
    requires Sound(h) && c in h.caches && h.caches[c] == Cache(SLAB_SIZE, [], h.caches[c].full) && SlabSource(h) != NULL
    ensures var x := SlabSource(h);
      TakeFrom(h, c, SLAB_SIZE) == (TakeSlab(h).(
        caches := h.caches[c := Cache(SLAB_SIZE, [], h.caches[c].full + [x])],
        slabs := h.slabs[x := Slab(c, SLAB_SIZE, [], false)],
        live := h.live[x + SLAB_HEADER := Object(x, 0, SLAB_SIZE)]), x + SLAB_HEADER)
  {
    hide Sound;
    var x, h1 := SlabSource(h), AddSlab(h, c);
    assert AllSlots(1) == [0];
    var slab := Slab(c, SLAB_SIZE, [0], true);
    assert h1 == TakeSlab(h).(
      caches := h.caches[c := Cache(SLAB_SIZE, [x], h.caches[c].full)], slabs := h.slabs[x := slab]);
    var (h2, p) := Pop(h1, c, SLAB_SIZE);
    assert slab.free[1..] == [] && h1.caches[c].avail[1..] == [];
    assert p == x + SLAB_HEADER;
    assert h2.caches == h.caches[c := Cache(SLAB_SIZE, [], h.caches[c].full + [x])];
    assert h2.slabs == h.slabs[x := Slab(c, SLAB_SIZE, [], false)];
    hide Pop;
  }

  lemma WholeSlabCacheHasNoRoom(h: Heap, c: int)
    requires Inv(h) && c in h.caches && h.caches[c].size == SLAB_SIZE
    ensures h.caches[c] == Cache(SLAB_SIZE, [], h.caches[c].full)
  {
    if h.caches[c].avail != [] {
      SlabWithRoom(h, c);
      assert false;
    }
  }

  lemma SlabWithRoom(h: Heap, c: int)
    requires Inv(h) && c in h.caches && h.caches[c].avail != []
    ensures ValidSize(h.caches[c].size) && 1 < SLAB_SIZE / h.caches[c].size
  {
    ListMembers(h, c);
    var x := h.caches[c].avail[0];
    assert HasRoom(h.slabs, x, c);
    assert |h.slabs[x].free| < h.slabs[x].Max();
  }

  /** A whole slab taken, as far as freeing it depends on it. */
  ghost predicate WholeSlabHeld(h: Heap, c: int, x: int) {
    && c in h.caches && h.caches[c].size == SLAB_SIZE && x in h.slabs && h.slabs[x] == Slab(c, SLAB_SIZE, [], false)
    && x + SLAB_HEADER in h.live && h.live[x + SLAB_HEADER].slab == x
  }

  lemma WholeSlabTakenHeld(h: Heap, c: int)
    requires Inv(h) && c in h.caches && h.caches[c].size == SLAB_SIZE && SlabSource(h) != NULL
    ensures var (h1, p) := TakeFrom(h, c, SLAB_SIZE);
      var x := SlabSource(h);
      && Inv(h1) && p == x + SLAB_HEADER && WholeSlabHeld(h1, c, x) && x !in h.slabs
      && h1.caches[c].full == h.caches[c].full + [x]
      && (forall y :: y != x && WholeSlabHeld(h, c, y) ==> WholeSlabHeld(h1, c, y))
  {
    TakeFromKeepsInv(h, c, SLAB_SIZE);
    WholeSlabCacheHasNoRoom(h, c);
    TakeSlabBooks(h);
    WholeSlabTaken(h, c);
    hide Sound, Inv, TakeFrom, SlabSource, TakeSlab;
  }

  lemma TwoWholeSlabs(h: Heap, c: int)
    requires Inv(h) && c in h.caches && h.caches[c].size == SLAB_SIZE && SlabSource(h) != NULL
    ensures var (h1, p) := TakeFrom(h, c, SLAB_SIZE);
      && Inv(h1) && c in h1.caches && h1.caches[c].size == SLAB_SIZE
      && (SlabSource(h1) != NULL ==>
           var (h2, q) := TakeFrom(h1, c, SLAB_SIZE);
           p in h2.live && !InDomain(h2, p) && q in h2.live && InDomain(h2, q))
  {
    WholeSlabTakenHeld(h, c);
    var h1 := TakeFrom(h, c, SLAB_SIZE).0;
    if SlabSource(h1) != NULL {
      hide Sound, Inv, TakeFrom, SlabSource;
      WholeSlabTakenHeld(h1, c);
    }
  }

  /**
   Two requests of a whole slab, one after the other, on any heap: the second pointer may be freed, the first
   may not, because its slab is no longer last on the full list.
   */
  lemma SecondWholeSlabBlocksFirst(h: Heap)
    requires Inv(h) && MallocStep(h, SLAB_SIZE).1 != NULL
    requires MallocStep(MallocStep(h, SLAB_SIZE).0, SLAB_SIZE).1 != NULL
    ensures var (h1, p) := MallocStep(h, SLAB_SIZE);
      var (h2, q) := MallocStep(h1, SLAB_SIZE);
      p in h2.live && !InDomain(h2, p) && q in h2.live && InDomain(h2, q)
  {
    WithCacheKeepsInv(h, SLAB_SIZE);
    var (h0, c) := WithCache(h, SLAB_SIZE);
    WholeSlabCacheHasNoRoom(h0, c);
    assert SlabSource(h0) != NULL;
    TwoWholeSlabs(h0, c);
    var h1 := MallocStep(h, SLAB_SIZE).0;
    FoundCacheUsed(h1, SLAB_SIZE, c);
    hide Sound, Inv, WithCache, InDomain;
  }

  /** From the empty heap on: the smallest program whose first pointer can no longer be freed. */
  lemma TwoWholeSlabsFromEmpty(base: int, size: int)
    requires 0 < base && HEAP_HEADER + CACHE_BYTES + 2 * SLAB_BYTES <= size
    ensures var (h1, p) := MallocStep(HS.Empty(base, size), SLAB_SIZE);
      var (h2, q) := MallocStep(h1, SLAB_SIZE);
      p in h2.live && !InDomain(h2, p) && q in h2.live && InDomain(h2, q)
  {
    var h := HS.Empty(base, size);
    HS.EmptyInv(base, size);
    NewCacheTaken(h, SLAB_SIZE);
    var c := base + HEAP_HEADER;
    var h0 := AddCache(h, SLAB_SIZE);
    assert WithCache(h, SLAB_SIZE) == (h0, c);
    WithCacheKeepsInv(h, SLAB_SIZE);
    WholeSlabTakenHeld(h0, c);
    WholeSlabTaken(h0, c);
    var h1 := TakeFrom(h0, c, SLAB_SIZE).0;
    assert MallocStep(h, SLAB_SIZE).0 == h1;
    assert SlabSource(h1) != NULL;
    FoundCacheUsed(h1, SLAB_SIZE, c);
    WholeSlabTakenHeld(h1, c);
    hide Sound, Inv, WithCache, InDomain, TakeFrom;
    SecondWholeSlabBlocksFirst(h);
  }
}
