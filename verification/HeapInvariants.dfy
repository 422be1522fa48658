/** Every step of the heap keeps its invariant. */
module HeapInvariants {
  import opened Machine
  import opened Lists
  import opened HeapSpec

  // ----- Taking a record -----

  lemma CountAppend(carved: seq<Record>, r: Record, kind: Kind)
    ensures Count(carved + [r], kind) == Count(carved, kind) + if r.kind == kind then 1 else 0
  {
    assert (carved + [r])[..|carved|] == carved;
  }

  lemma CarveArena(h: Heap, r: Record)
    requires ArenaOk(h) && r.addr == h.brk && h.brk + r.Bytes() <= h.end
    ensures Contiguous(h.carved + [r], h.base, h.brk + r.Bytes())
    ensures forall q :: q in h.carved ==> q.addr != h.brk
    ensures forall q :: q in h.carved + [r] <==> q in h.carved || q == r
    ensures h.brk > 0
  {
    assert (h.carved + [r])[..|h.carved|] == h.carved;
    forall q | q in h.carved ensures q.addr != h.brk {
      RecordInArena(h.carved, h.base, h.brk, q);
    }
    ArenaGrows(h.carved, h.base, h.brk);
  }

  /** Recycling an idle record keeps the books of its kind; the other kind is not touched. */
  lemma RecycleListed(used: set<int>, idle: seq<int>, carved: seq<Record>, kind: Kind)
    requires RecordsListed(used, idle, carved, kind) && idle != []
    ensures idle[0] !in used && RecordsListed(used + {idle[0]}, idle[1..], carved, kind)
  {
    DropHeadNoDup(idle);
    var x := idle[0];
    assert x in idle && x !in used;
    assert |used + {x}| == |used| + 1;
  }

  /** Carving a new record keeps the books of both kinds. */
  lemma CarveListed(used: set<int>, idle: seq<int>, carved: seq<Record>, kind: Kind, r: Record)
    requires RecordsListed(used, idle, carved, kind) && forall q :: q in carved ==> q.addr != r.addr
    ensures r.kind == kind ==> r.addr !in used && RecordsListed(used + {r.addr}, idle, carved + [r], kind)
    ensures r.kind != kind ==> RecordsListed(used, idle, carved + [r], kind)
  {
    CountAppend(carved, r, kind);
    if r.kind == kind {
      assert Record(r.addr, kind) == r && r !in carved;
    }
    assert forall q :: q in carved + [r] <==> q in carved || q == r;
  }

  /** A record no longer in use goes to the end of the idle list. */
  lemma RetireListed(used: set<int>, idle: seq<int>, carved: seq<Record>, kind: Kind, x: int)
    requires RecordsListed(used, idle, carved, kind) && x in used
    ensures RecordsListed(used - {x}, idle + [x], carved, kind)
  {
    AppendNoDup(idle, x);
  }

  lemma ListKeys(list: seq<int>, caches: map<int, Cache>, caches': map<int, Cache>)
    requires ListOk(list, caches) && caches'.Keys == caches.Keys
    ensures ListOk(list, caches')
  {
    assert forall c :: c in caches' <==> c in caches'.Keys;
  }

  lemma ListAppend(list: seq<int>, caches: map<int, Cache>, c: int, cache: Cache)
    requires ListOk(list, caches) && c !in caches
    ensures ListOk(list + [c], caches[c := cache])
  {
    AppendNoDup(list, c);
  }

  lemma ListRemove(list: seq<int>, caches: map<int, Cache>, c: int)
    requires ListOk(list, caches) && c in list
    ensures ListOk(RemoveAt(list, Index(list, c)), caches - {c})
  {
    RemoveAtNoDup(list, Index(list, c));
  }

  // ----- Caches -----

  lemma AddCacheSound(h: Heap, size: int)
    requires Sound(h) && ValidSize(size) && CacheSource(h) != NULL
    requires forall c :: c in h.caches ==> h.caches[c].size != size
    ensures Sound(AddCache(h, size)) && CacheSource(h) !in h.caches
    ensures Count(AddCache(h, size).carved, CacheRecord) > 0
  {
    hide CachesOk, SlabsOk, LiveOk, RecordsListed, ListOk, Contiguous, Count;
    var c, h' := CacheSource(h), AddCache(h, size);
    TakeCacheBooks(h);
    assert h'.caches.Keys == h.caches.Keys + {c};
    ListAppend(h.list, h.caches, c, Cache(size, [], []));
    AddCacheCaches(h.caches, h.slabs, c, size);
  }

  lemma TakeCacheBooks(h: Heap)
    requires ArenaOk(h) && CacheSource(h) != NULL
    requires RecordsListed(h.slabs.Keys, h.idleSlabs, h.carved, SlabRecord)
    requires RecordsListed(h.caches.Keys, h.idleCaches, h.carved, CacheRecord)
    ensures var t := TakeCache(h);
      && ArenaOk(t) && CacheSource(h) !in h.caches && Count(t.carved, CacheRecord) > 0
      && RecordsListed(h.slabs.Keys, t.idleSlabs, t.carved, SlabRecord)
      && RecordsListed(h.caches.Keys + {CacheSource(h)}, t.idleCaches, t.carved, CacheRecord)
  {
    if h.idleCaches != [] {
      RecycleListed(h.caches.Keys, h.idleCaches, h.carved, CacheRecord);
    } else {
      var r := Record(h.brk, CacheRecord);
      CarveArena(h, r);
      CountAppend(h.carved, r, CacheRecord);
      CarveListed(h.caches.Keys, h.idleCaches, h.carved, CacheRecord, r);
      CarveListed(h.slabs.Keys, h.idleSlabs, h.carved, SlabRecord, r);
    }
  }

  lemma AddCacheCaches(caches: map<int, Cache>, slabs: map<int, Slab>, c: int, size: int)
    requires CachesOk(caches, slabs) && SlabsOk(caches, slabs) && ValidSize(size) && c !in caches
    requires forall d :: d in caches ==> caches[d].size != size
    ensures CachesOk(caches[c := Cache(size, [], [])], slabs) && SlabsOk(caches[c := Cache(size, [], [])], slabs)
  {
    assert forall x :: x in slabs ==> slabs[x].owner != c;
  }

  // ----- Slabs -----

  lemma AddSlabSound(h: Heap, c: int)
    requires Sound(h) && c in h.caches && h.caches[c].avail == [] && SlabSource(h) != NULL
    ensures ValidSize(h.caches[c].size) && Sound(AddSlab(h, c)) && SlabSource(h) !in h.slabs
  {
    CacheSizeValid(h, c);
    hide CachesOk, SlabsOk, LiveOk, RecordsListed, ListOk, ArenaOk, ValidSize;
    var x, h' := SlabSource(h), AddSlab(h, c);
    TakeSlabBooks(h);
    assert h'.slabs.Keys == h.slabs.Keys + {x};
    assert h'.caches.Keys == h.caches.Keys;
    ListKeys(h.list, h.caches, h'.caches);
    var slab := NewSlab(c, h.caches[c].size);
    FreshSlabOk(c, h.caches[c].size);
    AddSlabCaches(h.caches, h.slabs, c, x, slab);
    AddSlabLive(h.slabs, h.live, x, slab);
  }

  lemma CacheSizeValid(h: Heap, c: int)
    requires CachesOk(h.caches, h.slabs) && c in h.caches
    ensures ValidSize(h.caches[c].size)
  {
  }

  lemma TakeSlabBooks(h: Heap)
    requires ArenaOk(h) && SlabSource(h) != NULL
    requires RecordsListed(h.slabs.Keys, h.idleSlabs, h.carved, SlabRecord)
    requires RecordsListed(h.caches.Keys, h.idleCaches, h.carved, CacheRecord)
    ensures var t := TakeSlab(h);
      && ArenaOk(t) && SlabSource(h) !in h.slabs
      && RecordsListed(h.slabs.Keys + {SlabSource(h)}, t.idleSlabs, t.carved, SlabRecord)
      && RecordsListed(h.caches.Keys, t.idleCaches, t.carved, CacheRecord)
  {
    if h.idleSlabs != [] {
      RecycleListed(h.slabs.Keys, h.idleSlabs, h.carved, SlabRecord);
    } else {
      var r := Record(h.brk, SlabRecord);
      CarveArena(h, r);
      CarveListed(h.slabs.Keys, h.idleSlabs, h.carved, SlabRecord, r);
      CarveListed(h.caches.Keys, h.idleCaches, h.carved, CacheRecord, r);
    }
  }

  /** A new slab's chain is all its slots in order. */
  lemma FreshSlabOk(c: int, size: int)
    requires ValidSize(size)
    ensures var slab := NewSlab(c, size);
      && SlabOk(slab) && slab.free != []
      && forall k: nat :: k < slab.Max() ==> k in slab.free
  {
    MaxBounds(size);
    forall k: nat | k < SLAB_SIZE / size ensures k in AllSlots(SLAB_SIZE / size) {
      assert AllSlots(SLAB_SIZE / size)[k] == k;
    }
  }

  lemma AddSlabCaches(caches: map<int, Cache>, slabs: map<int, Slab>, c: int, x: int, slab: Slab)
    requires CachesOk(caches, slabs) && SlabsOk(caches, slabs) && c in caches && caches[c].avail == [] && x !in slabs
    requires SlabOk(slab) && slab.owner == c && slab.size == caches[c].size && slab.free != []
    ensures CachesOk(caches[c := caches[c].(avail := [x])], slabs[x := slab])
    ensures SlabsOk(caches[c := caches[c].(avail := [x])], slabs[x := slab])
  {
    var caches', slabs' := caches[c := caches[c].(avail := [x])], slabs[x := slab];
    forall d, y | d in caches' ensures y in caches'[d].avail <==> HasRoom(slabs', y, d) {
      assert y in caches[d].avail <==> HasRoom(slabs, y, d);
    }
    forall d, y | d in caches' ensures y in caches'[d].full <==> IsFull(slabs', y, d) {
      assert y in caches[d].full <==> IsFull(slabs, y, d);
    }
  }

  lemma AddSlabLive(slabs: map<int, Slab>, live: map<int, Object>, x: int, slab: Slab)
    requires LiveOk(slabs, live) && x !in slabs && ValidSize(slab.size)
    requires forall k: nat :: k < slab.Max() ==> k in slab.free
    ensures LiveOk(slabs[x := slab], live)
    ensures forall p :: p in live ==> live[p].slab != x
  {
    var slabs' := slabs[x := slab];
    forall p | p in live ensures Placed(slabs', p, live[p]) && live[p].slab != x {
      assert Placed(slabs, p, live[p]);
    }
    forall y, k ensures Accounted(slabs', live, y, k) {
      assert Accounted(slabs, live, y, k);
    }
  }

  // ----- Taking a slot -----

  lemma PopSound(h: Heap, c: int, len: int)
    requires Sound(h) && c in h.caches && h.caches[c].avail != [] && len <= h.caches[c].size
    ensures PopReady(h, c)
    ensures var (h', p) := Pop(h, c, len); Sound(h') && p !in h.live && p != NULL
  {
    PopEnabled(h, c);
    var x := h.caches[c].avail[0];
    var slab := h.slabs[x];
    var k, rest := slab.free[0], slab.free[1..];
    var (h', p) := Pop(h, c, len);
    DropHeadNoDup(slab.free);
    assert k in slab.free;
    assert h'.slabs.Keys == h.slabs.Keys && h'.caches.Keys == h.caches.Keys;
    PopCaches(h.caches, h.slabs, c);
    PopLive(h, x, len);
    SlotInSlab(x, slab.size, k);
    RecordInArena(h.carved, h.base, h.brk, Record(x, SlabRecord));
  }

  predicate PopReady(h: Heap, c: int) {
    && c in h.caches && h.caches[c].avail != []
    && var x := h.caches[c].avail[0]; x in h.slabs && h.slabs[x].free != []
  }

  lemma PopEnabled(h: Heap, c: int)
    requires CachesOk(h.caches, h.slabs) && c in h.caches && h.caches[c].avail != []
    ensures PopReady(h, c) && h.slabs[h.caches[c].avail[0]].owner == c
  {
    var x := h.caches[c].avail[0];
    assert x in h.caches[c].avail;
    assert HasRoom(h.slabs, x, c);
  }

  lemma PopCaches(caches: map<int, Cache>, slabs: map<int, Slab>, c: int)
    requires CachesOk(caches, slabs) && SlabsOk(caches, slabs) && c in caches && caches[c].avail != []
    requires var x := caches[c].avail[0]; x in slabs && slabs[x].owner == c && slabs[x].free != []
    ensures var x := caches[c].avail[0];
      var rest := slabs[x].free[1..];
      var slabs' := slabs[x := slabs[x].(free := rest, pristine := slabs[x].pristine && rest != [])];
      var caches' := caches[c :=
        if rest == [] then caches[c].(avail := caches[c].avail[1..], full := caches[c].full + [x]) else caches[c]];
      CachesOk(caches', slabs') && SlabsOk(caches', slabs')
  {
    var x := caches[c].avail[0];
    var slab := slabs[x];
    var rest := slab.free[1..];
    var slab' := slab.(free := rest, pristine := slab.pristine && rest != []);
    DropHeadNoDup(slab.free);
    assert SlabOk(slab');
    DropHeadNoDup(caches[c].avail);
    var slabs' := slabs[x := slab'];
    assert !IsFull(slabs, x, c);
    AppendNoDup(caches[c].full, x);
    var caches' := caches[c :=
      if rest == [] then caches[c].(avail := caches[c].avail[1..], full := caches[c].full + [x]) else caches[c]];
    forall d, y | d in caches' ensures y in caches'[d].avail <==> HasRoom(slabs', y, d) {
      assert y in caches[d].avail <==> HasRoom(slabs, y, d);
    }
    forall d, y | d in caches' ensures y in caches'[d].full <==> IsFull(slabs', y, d) {
      assert y in caches[d].full <==> IsFull(slabs, y, d);
    }
  }

  /** A slot that leaves the chain becomes the one new live object. */
  lemma PopLive(h: Heap, x: int, len: int)
    requires ArenaOk(h) && RecordsListed(h.slabs.Keys, h.idleSlabs, h.carved, SlabRecord)
    requires SlabsOk(h.caches, h.slabs) && LiveOk(h.slabs, h.live)
    requires x in h.slabs && h.slabs[x].free != [] && len <= h.slabs[x].size
    ensures var slab := h.slabs[x];
      var p := SlotAddr(x, slab.size, slab.free[0]);
      && p !in h.live
      && LiveOk(h.slabs[x := slab.(free := slab.free[1..], pristine := slab.pristine && slab.free[1..] != [])],
                h.live[p := Object(x, slab.free[0], len)])
  {
    var slab := h.slabs[x];
    var k := slab.free[0];
    var p := SlotAddr(x, slab.size, k);
    var slabs' := h.slabs[x := slab.(free := slab.free[1..], pristine := slab.pristine && slab.free[1..] != [])];
    var live' := h.live[p := Object(x, k, len)];
    DropHeadNoDup(slab.free);
    assert k in slab.free;
    if p in h.live {
      assert Placed(h.slabs, p, h.live[p]);
      SlotsApart(h, x, k, h.live[p].slab, h.live[p].slot);
    }
    forall q | q in live' ensures Placed(slabs', q, live'[q]) {
      if q != p {
        assert Placed(h.slabs, q, h.live[q]);
      }
    }
    forall y, l ensures Accounted(slabs', live', y, l) {
      assert Accounted(h.slabs, h.live, y, l);
    }
  }

  // ----- Giving a slot back -----

  /** Inserting a slot keeps the chain duplicate-free and ascending after its head. */
  lemma InsertedKeepsChain(free: seq<nat>, k: nat)
    requires NoDup(free) && AscendingTail(free) && free != [] && k !in free
    ensures NoDup(Inserted(free, k)) && AscendingTail(Inserted(free, k))
    ensures |Inserted(free, k)| == |free| + 1
    ensures forall l :: l in Inserted(free, k) <==> l in free || l == k
  {
    var j := InsertPos(free, k, 1);
    var t := Inserted(free, k);
    InsertNoDup(free, j, k);
    forall a, b | 1 <= a < b < |t| ensures t[a] < t[b] {
      if a == j {
        assert t[b] == free[b - 1] && free[j] <= free[b - 1];
      } else if b == j {
        assert t[a] == free[a] && free[a] in free;
      } else {
        assert t[a] == free[if a < j then a else a - 1] && t[b] == free[if b < j then b else b - 1];
      }
    }
  }

  lemma PushLive(h: Heap, p: int, slab': Slab)
    requires ArenaOk(h) && RecordsListed(h.slabs.Keys, h.idleSlabs, h.carved, SlabRecord)
    requires LiveOk(h.slabs, h.live) && p in h.live
    requires var o := h.live[p];
      && o.slab in h.slabs && slab'.size == h.slabs[o.slab].size
      && (forall l :: l in slab'.free <==> l in h.slabs[o.slab].free || l == o.slot)
    ensures LiveOk(h.slabs[h.live[p].slab := slab'], h.live - {p})
  {
    var x, k := h.live[p].slab, h.live[p].slot;
    var slabs', live' := h.slabs[x := slab'], h.live - {p};
    assert Placed(h.slabs, p, h.live[p]);
    forall q | q in live' ensures Placed(slabs', q, live'[q]) {
      assert Placed(h.slabs, q, h.live[q]);
    }
    forall y, l ensures Accounted(slabs', live', y, l) {
      assert Accounted(h.slabs, h.live, y, l);
    }
  }

  /** A pristine slab takes a slot back into its chain; no list changes. */
  lemma PushPristineSound(h: Heap, p: int)
    requires Sound(h) && p in h.live && h.live[p].slab in h.slabs
    requires h.slabs[h.live[p].slab].pristine
    ensures PushReady(h, p) && Sound(Push(h, p))
  {
    var x, k := h.live[p].slab, h.live[p].slot;
    var slab := h.slabs[x];
    var h' := Push(h, p);
    assert Placed(h.slabs, p, h.live[p]);
    InsertedKeepsChain(slab.free, k);
    PigeonHole(Inserted(slab.free, k), slab.Max());
    PushLive(h, p, h'.slabs[x]);
    assert h'.slabs.Keys == h.slabs.Keys && h'.caches.Keys == h.caches.Keys;
    assert SlabOk(h'.slabs[x]);
    assert h'.caches == h.caches && h'.slabs[x].owner == slab.owner && h'.slabs[x].free != [];
    forall c, y | c in h.caches ensures y in h.caches[c].avail <==> HasRoom(h'.slabs, y, c) {
      assert y in h.caches[c].avail <==> HasRoom(h.slabs, y, c);
    }
    forall c, y | c in h.caches ensures y in h.caches[c].full <==> IsFull(h'.slabs, y, c) {
      assert y in h.caches[c].full <==> IsFull(h.slabs, y, c);
    }
  }

  predicate PushReady(h: Heap, p: int) {
    && p in h.live && h.live[p].slab in h.slabs && h.slabs[h.live[p].slab].owner in h.caches
    && (h.slabs[h.live[p].slab].free == [] ==> h.live[p].slab in h.caches[h.slabs[h.live[p].slab].owner].full)
  }

  lemma PushEnabled(h: Heap, p: int)
    requires Sound(h) && p in h.live
    ensures PushReady(h, p)
  {
    assert Placed(h.slabs, p, h.live[p]);
    var x := h.live[p].slab;
    assert h.slabs[x].free == [] ==> IsFull(h.slabs, x, h.slabs[x].owner);
  }

  /** A full slab restarts its chain and moves to the end of its cache's available list. */
  lemma PushFullSound(h: Heap, p: int)
    requires Sound(h) && p in h.live && h.live[p].slab in h.slabs
    requires h.slabs[h.live[p].slab].free == []
    ensures PushReady(h, p) && Sound(Push(h, p))
  {
    PushEnabled(h, p);
    var x, k := h.live[p].slab, h.live[p].slot;
    var slab, c := h.slabs[x], h.slabs[x].owner;
    var h' := Push(h, p);
    assert Placed(h.slabs, p, h.live[p]);
    MaxBounds(slab.size);
    PushLive(h, p, h'.slabs[x]);
    assert h'.slabs.Keys == h.slabs.Keys && h'.caches.Keys == h.caches.Keys;
    assert SlabOk(h'.slabs[x]);
    var i := Index(h.caches[c].full, x);
    RemoveAtNoDup(h.caches[c].full, i);
    assert !HasRoom(h.slabs, x, c);
    AppendNoDup(h.caches[c].avail, x);
    forall d, y | d in h'.caches ensures y in h'.caches[d].avail <==> HasRoom(h'.slabs, y, d) {
      assert y in h.caches[d].avail <==> HasRoom(h.slabs, y, d);
    }
    forall d, y | d in h'.caches ensures y in h'.caches[d].full <==> IsFull(h'.slabs, y, d) {
      assert y in h.caches[d].full <==> IsFull(h.slabs, y, d);
    }
  }

  // ----- Retiring records -----

  lemma RetireSlabSound(h: Heap, x: int)
    requires Sound(h) && x in h.slabs && |h.slabs[x].free| == h.slabs[x].Max()
    ensures RetireReady(h, x) && Sound(RetireSlab(h, x))
  {
    var c := h.slabs[x].owner;
    MaxBounds(h.slabs[x].size);
    assert HasRoom(h.slabs, x, c);
    var h' := RetireSlab(h, x);
    RetireListed(h.slabs.Keys, h.idleSlabs, h.carved, SlabRecord, x);
    assert h'.slabs.Keys == h.slabs.Keys - {x} && h'.caches.Keys == h.caches.Keys;
    RemoveAtNoDup(h.caches[c].avail, Index(h.caches[c].avail, x));
    forall d, y | d in h'.caches ensures y in h'.caches[d].avail <==> HasRoom(h'.slabs, y, d) {
      assert y in h.caches[d].avail <==> HasRoom(h.slabs, y, d);
    }
    forall d, y | d in h'.caches ensures y in h'.caches[d].full <==> IsFull(h'.slabs, y, d) {
      assert y in h.caches[d].full <==> IsFull(h.slabs, y, d);
    }
    NoneLiveInEmptySlab(h, x);
    forall q | q in h.live ensures Placed(h'.slabs, q, h.live[q]) {
      assert Placed(h.slabs, q, h.live[q]);
    }
    forall y, l ensures Accounted(h'.slabs, h.live, y, l) {
      assert Accounted(h.slabs, h.live, y, l);
    }
  }

  predicate RetireReady(h: Heap, x: int) {
    x in h.slabs && h.slabs[x].owner in h.caches && x in h.caches[h.slabs[x].owner].avail
  }

  /** A slab whose slots are all free holds no live object. */
  lemma NoneLiveInEmptySlab(h: Heap, x: int)
    requires SlabsOk(h.caches, h.slabs) && LiveOk(h.slabs, h.live) && x in h.slabs
    requires |h.slabs[x].free| == h.slabs[x].Max()
    ensures forall p :: p in h.live ==> h.live[p].slab != x
  {
    forall p | p in h.live ensures h.live[p].slab != x {
      if h.live[p].slab == x {
        assert Placed(h.slabs, p, h.live[p]);
        PigeonHole(h.slabs[x].free + [h.live[p].slot], h.slabs[x].Max());
        assert false;
      }
    }
  }

  lemma RetireCacheSound(h: Heap, c: int)
    requires Sound(h) && c in h.caches && h.caches[c].avail == [] && h.caches[c].full == []
    ensures c in h.list && Sound(RetireCache(h, c))
  {
    var h' := RetireCache(h, c);
    RetireListed(h.caches.Keys, h.idleCaches, h.carved, CacheRecord, c);
    assert h'.caches.Keys == h.caches.Keys - {c};
    ListRemove(h.list, h.caches, c);
    forall x | x in h.slabs ensures h.slabs[x].owner != c {
      assert x in h.caches[c].avail <==> HasRoom(h.slabs, x, c);
      assert x in h.caches[c].full <==> IsFull(h.slabs, x, c);
    }
    assert forall d, y :: d in h'.caches ==> (y in h.caches[d].avail <==> HasRoom(h.slabs, y, d));
  }

  // ----- Sources -----

  /** No record has address NULL, so NULL always means that nothing is left. */
  lemma RecordsNotNull(h: Heap)
    requires Sound(h)
    ensures CacheSource(h) == NULL <==> h.idleCaches == [] && h.end < h.brk + CACHE_BYTES
    ensures SlabSource(h) == NULL <==> h.idleSlabs == [] && h.end < h.brk + SLAB_BYTES
  {
    ArenaGrows(h.carved, h.base, h.brk);
    if h.idleCaches != [] {
      var c := h.idleCaches[0];
      assert c in h.idleCaches;
      RecordInArena(h.carved, h.base, h.brk, Record(c, CacheRecord));
    }
    if h.idleSlabs != [] {
      var x := h.idleSlabs[0];
      assert x in h.idleSlabs;
      RecordInArena(h.carved, h.base, h.brk, Record(x, SlabRecord));
    }
  }
}
