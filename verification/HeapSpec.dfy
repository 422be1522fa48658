/**
 The slab heap as mathematical lists.

 A cache serves one object size and owns slabs; a slab is a 32-byte header and 4096 bytes cut into slots.
 Caches and slabs are records carved one after the other from the arena; a record that is no longer needed
 waits on an idle list for reuse and is never given back.
 */
module HeapSpec {
  import opened Machine
  import opened Lists

  const SLAB_SIZE: int := 4096
  const HEAP_HEADER: int := 48
  const CACHE_BYTES: int := 32
  const SLAB_HEADER: int := 32
  const SLAB_BYTES: int := 4128
  const MIN_OBJECT: int := 8

  datatype Kind = CacheRecord | SlabRecord

  datatype Record = Record(addr: int, kind: Kind) {
    function Bytes(): int {
      if kind.CacheRecord? then CACHE_BYTES else SLAB_BYTES
    }
  }

  /** A cache: the object size it serves, its slabs with free slots, its full slabs. */
  datatype Cache = Cache(size: int, avail: seq<int>, full: seq<int>)

  /**
   A slab in use: its cache, its object size, its free slots in chain order.  `pristine` says it has not
   been full since _make_slab set it up, so that its chain still ends in the one-past-the-end marker.
   */
  datatype Slab = Slab(owner: int, size: int, free: seq<nat>, pristine: bool) {
    /** How many objects fit. */
    function Max(): int
      requires size > 0
    {
      SLAB_SIZE / size
    }
  }

  /** A live object: where it lives and how many bytes were asked for. */
  datatype Object = Object(slab: int, slot: nat, len: int)

  datatype Heap = Heap(
    base: int, end: int, brk: int, carved: seq<Record>,
    list: seq<int>, idleCaches: seq<int>, idleSlabs: seq<int>,
    caches: map<int, Cache>, slabs: map<int, Slab>, live: map<int, Object>)

  /** Address of a slot; slot Max() is the one-past-the-end marker. */
  function SlotAddr(slab: int, size: int, slot: nat): int {
    slab + SLAB_HEADER + slot * size
  }

  predicate ValidSize(size: int) {
    MIN_OBJECT <= size <= SLAB_SIZE
  }

  // ----- The arena -----

  /** Do the records fill the arena from its header up to brk, one after the other? */
  predicate Contiguous(carved: seq<Record>, base: int, brk: int) {
    if carved == [] then brk == base + HEAP_HEADER
    else
      var r := carved[|carved| - 1];
      Contiguous(carved[..|carved| - 1], base, r.addr) && brk == r.addr + r.Bytes()
  }

  function Count(carved: seq<Record>, kind: Kind): nat {
    if carved == [] then 0
    else Count(carved[..|carved| - 1], kind) + if carved[|carved| - 1].kind == kind then 1 else 0
  }

  ghost predicate ArenaOk(h: Heap) {
    0 < h.base && h.brk <= h.end && Contiguous(h.carved, h.base, h.brk)
  }

  lemma {:induction false} RecordInArena(carved: seq<Record>, base: int, brk: int, r: Record)
    requires Contiguous(carved, base, brk) && r in carved
    ensures base + HEAP_HEADER <= r.addr && r.addr + r.Bytes() <= brk
  {
    var last := carved[|carved| - 1];
    if r in carved[..|carved| - 1] {
      RecordInArena(carved[..|carved| - 1], base, last.addr, r);
    } else {
      assert r == last;
      ArenaGrows(carved[..|carved| - 1], base, last.addr);
    }
  }

  lemma {:induction false} ArenaGrows(carved: seq<Record>, base: int, brk: int)
    requires Contiguous(carved, base, brk)
    ensures base + HEAP_HEADER <= brk
  {
    if carved != [] {
      ArenaGrows(carved[..|carved| - 1], base, carved[|carved| - 1].addr);
    }
  }

  /** Two different records share no byte. */
  lemma {:induction false} RecordsApart(carved: seq<Record>, base: int, brk: int, r: Record, q: Record)
    requires Contiguous(carved, base, brk) && r in carved && q in carved && r != q
    ensures r.addr + r.Bytes() <= q.addr || q.addr + q.Bytes() <= r.addr
  {
    var last := carved[|carved| - 1];
    var rest := carved[..|carved| - 1];
    if r in rest && q in rest {
      RecordsApart(rest, base, last.addr, r, q);
    } else if r in rest {
      RecordInArena(rest, base, last.addr, r);
    } else {
      assert q in rest;
      RecordInArena(rest, base, last.addr, q);
    }
  }

  /** Every byte carved from the arena belongs to a record. */
  lemma {:induction false} CarvedBytes(carved: seq<Record>, base: int, brk: int)
    requires Contiguous(carved, base, brk)
    ensures brk - base - HEAP_HEADER
      == CACHE_BYTES * Count(carved, CacheRecord) + SLAB_BYTES * Count(carved, SlabRecord)
  {
    if carved != [] {
      CarvedBytes(carved[..|carved| - 1], base, carved[|carved| - 1].addr);
    }
  }

  // ----- Lists -----

  /** Every record of one kind is in use or on the idle list, once. */
  ghost predicate RecordsListed(used: set<int>, idle: seq<int>, carved: seq<Record>, kind: Kind) {
    && NoDup(idle)
    && (forall x :: x in idle ==> x !in used)
    && (forall x :: x in used || x in idle <==> Record(x, kind) in carved)
    && |used| + |idle| == Count(carved, kind)
  }

  /** The cache list holds every cache in use, once. */
  ghost predicate ListOk(list: seq<int>, caches: map<int, Cache>) {
    NoDup(list) && forall c :: c in list <==> c in caches
  }

  /** One cache per size; its two lists hold exactly its slabs, split by whether they have a free slot. */
  ghost predicate CachesOk(caches: map<int, Cache>, slabs: map<int, Slab>) {
    && (forall c :: c in caches ==> ValidSize(caches[c].size) && NoDup(caches[c].avail) && NoDup(caches[c].full))
    && (forall c, d :: c in caches && d in caches && c != d ==> caches[c].size != caches[d].size)
    && (forall c, x :: c in caches ==> (x in caches[c].avail <==> HasRoom(slabs, x, c)))
    && (forall c, x :: c in caches ==> (x in caches[c].full <==> IsFull(slabs, x, c)))
  }

  predicate HasRoom(slabs: map<int, Slab>, x: int, c: int) {
    x in slabs && slabs[x].owner == c && slabs[x].free != []
  }

  predicate IsFull(slabs: map<int, Slab>, x: int, c: int) {
    x in slabs && slabs[x].owner == c && slabs[x].free == []
  }

  /** Strictly ascending after the first element. */
  ghost predicate AscendingTail(free: seq<nat>) {
    forall i, j :: 1 <= i < j < |free| ==> free[i] < free[j]
  }

  ghost predicate SlabOk(s: Slab) {
    && ValidSize(s.size)
    && NoDup(s.free)
    && (forall k :: k in s.free ==> k < s.Max())
    && |s.free| <= s.Max()
    && (s.pristine ==> AscendingTail(s.free) && s.free != [])
    && (!s.pristine ==> |s.free| <= 1)
  }

  ghost predicate SlabsOk(caches: map<int, Cache>, slabs: map<int, Slab>) {
    forall x :: x in slabs ==>
      SlabOk(slabs[x]) && slabs[x].owner in caches && slabs[x].size == caches[slabs[x].owner].size
  }

  // ----- Live objects -----

  /** Does pointer p stand for slot o.slot of slab o.slab, in use? */
  predicate Placed(slabs: map<int, Slab>, p: int, o: Object) {
    && o.slab in slabs
    && ValidSize(slabs[o.slab].size)
    && o.slot < slabs[o.slab].Max()
    && o.slot !in slabs[o.slab].free
    && p == SlotAddr(o.slab, slabs[o.slab].size, o.slot)
    && o.len <= slabs[o.slab].size
  }

  /** Is slot k of slab x free, or live under its own address? */
  predicate Accounted(slabs: map<int, Slab>, live: map<int, Object>, x: int, k: nat) {
    x in slabs && ValidSize(slabs[x].size) && k < slabs[x].Max() && k !in slabs[x].free ==>
      var p := SlotAddr(x, slabs[x].size, k);
      p in live && live[p].slab == x && live[p].slot == k
  }

  /** The live objects are exactly the slots of slabs in use that are not free. */
  ghost predicate LiveOk(slabs: map<int, Slab>, live: map<int, Object>) {
    (forall p :: p in live ==> Placed(slabs, p, live[p])) && (forall x, k :: Accounted(slabs, live, x, k))
  }

  /** Everything that holds even while a new slab has no object yet or an emptied one is still listed. */
  ghost predicate Sound(h: Heap) {
    && ArenaOk(h)
    && RecordsListed(h.caches.Keys, h.idleCaches, h.carved, CacheRecord)
    && RecordsListed(h.slabs.Keys, h.idleSlabs, h.carved, SlabRecord)
    && ListOk(h.list, h.caches)
    && CachesOk(h.caches, h.slabs)
    && SlabsOk(h.caches, h.slabs)
    && LiveOk(h.slabs, h.live)
  }

  /** Does every slab in use hold an object? */
  ghost predicate NoneEmpty(slabs: map<int, Slab>) {
    forall x :: x in slabs ==> ValidSize(slabs[x].size) && |slabs[x].free| < slabs[x].Max()
  }

  /** Between calls, moreover, every slab in use holds an object, and slabs come only after a first cache. */
  ghost predicate Inv(h: Heap) {
    && Sound(h)
    && NoneEmpty(h.slabs)
    && (Count(h.carved, CacheRecord) == 0 ==> h.carved == [])
  }

  // ----- Slot arithmetic -----

  lemma MaxBounds(size: int)
    requires ValidSize(size)
    ensures 1 <= SLAB_SIZE / size <= SLAB_SIZE / MIN_OBJECT
    ensures (SLAB_SIZE / size) * size <= SLAB_SIZE
  {
  }

  lemma {:induction false} SlotsOrdered(size: int, k: nat, l: nat)
    requires 0 < size && k < l
    ensures k * size + size <= l * size
    decreases l
  {
    assert l * size == (l - 1) * size + size;
    if k < l - 1 {
      SlotsOrdered(size, k, l - 1);
    }
  }

  /** A slot lies inside its slab's object area. */
  lemma SlotInSlab(x: int, size: int, k: nat)
    requires ValidSize(size) && k < SLAB_SIZE / size
    ensures x + SLAB_HEADER <= SlotAddr(x, size, k) && SlotAddr(x, size, k) + size <= x + SLAB_BYTES
  {
    MaxBounds(size);
    assert 0 <= k * size;
    if k + 1 < SLAB_SIZE / size {
      SlotsOrdered(size, k, SLAB_SIZE / size);
    }
  }

  lemma SlabsApart(h: Heap, x: int, y: int)
    requires ArenaOk(h) && Record(x, SlabRecord) in h.carved && Record(y, SlabRecord) in h.carved && x != y
    ensures x + SLAB_BYTES <= y || y + SLAB_BYTES <= x
  {
    RecordsApart(h.carved, h.base, h.brk, Record(x, SlabRecord), Record(y, SlabRecord));
  }

  /** Different slots, of one slab or of two, share no byte. */
  lemma SlotsApart(h: Heap, x: int, k: nat, y: int, l: nat)
    requires ArenaOk(h) && RecordsListed(h.slabs.Keys, h.idleSlabs, h.carved, SlabRecord)
    requires x in h.slabs && y in h.slabs && (x != y || k != l)
    requires ValidSize(h.slabs[x].size) && ValidSize(h.slabs[y].size)
    requires k < h.slabs[x].Max() && l < h.slabs[y].Max()
    ensures var p, q := SlotAddr(x, h.slabs[x].size, k), SlotAddr(y, h.slabs[y].size, l);
      p + h.slabs[x].size <= q || q + h.slabs[y].size <= p
  {
    SlotInSlab(x, h.slabs[x].size, k);
    SlotInSlab(y, h.slabs[y].size, l);
    if x != y {
      SlabsApart(h, x, y);
    } else if k < l {
      SlotsOrdered(h.slabs[x].size, k, l);
    } else {
      SlotsOrdered(h.slabs[x].size, l, k);
    }
  }

  // ----- Steps -----

  /** Where _make_cache takes its record from: an idle one first, then fresh arena; NULL when neither is left. */
  function CacheSource(h: Heap): int {
    if h.idleCaches != [] then h.idleCaches[0]
    else if h.brk + CACHE_BYTES <= h.end then h.brk else NULL
  }

  function SlabSource(h: Heap): int {
    if h.idleSlabs != [] then h.idleSlabs[0]
    else if h.brk + SLAB_BYTES <= h.end then h.brk else NULL
  }

  function TakeCache(h: Heap): Heap {
    if h.idleCaches != [] then h.(idleCaches := h.idleCaches[1..])
    else h.(brk := h.brk + CACHE_BYTES, carved := h.carved + [Record(h.brk, CacheRecord)])
  }

  function TakeSlab(h: Heap): Heap {
    if h.idleSlabs != [] then h.(idleSlabs := h.idleSlabs[1..])
    else h.(brk := h.brk + SLAB_BYTES, carved := h.carved + [Record(h.brk, SlabRecord)])
  }

  /** A new cache for objects of `size` bytes, at the end of the cache list. */
  function AddCache(h: Heap, size: int): Heap {
    var c := CacheSource(h);
    TakeCache(h).(list := h.list + [c], caches := h.caches[c := Cache(size, [], [])])
  }

  /** The slots 0 up to n, in order. */
  function AllSlots(n: nat): (s: seq<nat>)
    ensures |s| == n && forall i :: 0 <= i < n ==> s[i] == i
  {
    if n == 0 then [] else AllSlots(n - 1) + [n - 1]
  }

  /** A slab of cache c for objects of `size` bytes, every slot free. */
  function NewSlab(c: int, size: int): Slab
    requires ValidSize(size)
  {
    Slab(c, size, AllSlots(SLAB_SIZE / size), true)
  }

  /** A new slab with every slot free, as the only available slab of cache c. */
  function AddSlab(h: Heap, c: int): Heap
    requires c in h.caches && ValidSize(h.caches[c].size)
  {
    var x, size := SlabSource(h), h.caches[c].size;
    TakeSlab(h).(caches := h.caches[c := h.caches[c].(avail := [x])],
                slabs := h.slabs[x := NewSlab(c, size)])
  }

  /**
   Takes the first free slot of cache c's first available slab; a slab that fills up moves to the end of the full list.
   */
  function Pop(h: Heap, c: int, len: int): (Heap, int)
    requires c in h.caches && h.caches[c].avail != [] && h.caches[c].avail[0] in h.slabs
    requires h.slabs[h.caches[c].avail[0]].free != []
  {
    var cache, x := h.caches[c], h.caches[c].avail[0];
    var slab := h.slabs[x];
    var rest := slab.free[1..];
    var p := SlotAddr(x, slab.size, slab.free[0]);
    var cache' := if rest == [] then cache.(avail := cache.avail[1..], full := cache.full + [x]) else cache;
    (h.(caches := h.caches[c := cache'],
        slabs := h.slabs[x := slab.(free := rest, pristine := slab.pristine && rest != [])],
        live := h.live[p := Object(x, slab.free[0], len)]), p)
  }

  /** First position after the head of the chain whose slot lies above k. */
  function InsertPos(free: seq<nat>, k: nat, from: nat): (j: nat)
    requires 1 <= from <= |free|
    ensures from <= j <= |free|
    ensures forall i :: from <= i < j ==> free[i] <= k
    ensures j < |free| ==> free[j] > k
    decreases |free| - from
  {
    if from == |free| || free[from] > k then from else InsertPos(free, k, from + 1)
  }

  function Inserted(free: seq<nat>, k: nat): seq<nat>
    requires free != []
  {
    var j := InsertPos(free, k, 1);
    free[..j] + [k] + free[j..]
  }

  /**
   Gives the live object at p back to its slab.  The slot of a slab with free slots is inserted in the chain;
   a full slab restarts its chain and goes to the end of its cache's available list.
   */
  function Push(h: Heap, p: int): Heap
    requires p in h.live && h.live[p].slab in h.slabs && h.slabs[h.live[p].slab].owner in h.caches
    requires h.slabs[h.live[p].slab].free == [] ==> h.live[p].slab in h.caches[h.slabs[h.live[p].slab].owner].full
  {
    var x, k := h.live[p].slab, h.live[p].slot;
    var slab := h.slabs[x];
    var c := slab.owner;
    if slab.free != [] then
      h.(slabs := h.slabs[x := slab.(free := Inserted(slab.free, k))], live := h.live - {p})
    else
      var cache := h.caches[c];
      h.(caches := h.caches[c := cache.(avail := cache.avail + [x],
        full := RemoveAt(cache.full, Index(cache.full, x)))],
         slabs := h.slabs[x := slab.(free := [k], pristine := false)],
         live := h.live - {p})
  }

  /** A slab without objects leaves its cache's available list and becomes idle. */
  function RetireSlab(h: Heap, x: int): Heap
    requires x in h.slabs && h.slabs[x].owner in h.caches && x in h.caches[h.slabs[x].owner].avail
  {
    var c := h.slabs[x].owner;
    var cache := h.caches[c];
    h.(caches := h.caches[c := cache.(avail := RemoveAt(cache.avail, Index(cache.avail, x)))],
       slabs := h.slabs - {x},
       idleSlabs := h.idleSlabs + [x])
  }

  /** A cache without slabs leaves the cache list and becomes idle. */
  function RetireCache(h: Heap, c: int): Heap
    requires c in h.list
  {
    h.(list := RemoveAt(h.list, Index(h.list, c)), caches := h.caches - {c}, idleCaches := h.idleCaches + [c])
  }
}
