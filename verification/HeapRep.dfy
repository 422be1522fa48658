/** How the heap's records in memory stand for the lists of HeapSpec. */
module HeapRep {
  import opened Machine
  import opened Lists
  import opened Chains
  import opened HeapSpec

  /** struct heap_cache. */
  datatype CacheRec = CacheRec(next: int, size: int, avail: int, full: int)

  /** struct heap_slab, without its objects. */
  datatype SlabRec = SlabRec(next: int, objects: int, max: int, firstFree: int)

  ghost function CacheNext(cacheAt: map<int, CacheRec>): map<int, int> {
    map c | c in cacheAt :: cacheAt[c].next
  }

  ghost function SlabNext(slabAt: map<int, SlabRec>): map<int, int> {
    map x | x in slabAt :: slabAt[x].next
  }

  // ----- Relinking -----

  function SetSlabNext(slabAt: map<int, SlabRec>, x: int, next: int): map<int, SlabRec> {
    if x in slabAt then slabAt[x := slabAt[x].(next := next)] else slabAt
  }

  /** The member before s[i], if any, points past s[i]. */
  function UnlinkSlab(slabAt: map<int, SlabRec>, s: seq<int>, i: nat): map<int, SlabRec>
    requires i < |s|
  {
    if i == 0 then slabAt else SetSlabNext(slabAt, s[i - 1], NextIn(s, i))
  }

  /** The last member of s, if any, points at x. */
  function AppendSlab(slabAt: map<int, SlabRec>, s: seq<int>, x: int): map<int, SlabRec> {
    if s == [] then slabAt else SetSlabNext(slabAt, s[|s| - 1], x)
  }

  function SetCacheNext(cacheAt: map<int, CacheRec>, c: int, next: int): map<int, CacheRec> {
    if c in cacheAt then cacheAt[c := cacheAt[c].(next := next)] else cacheAt
  }

  function UnlinkCache(cacheAt: map<int, CacheRec>, s: seq<int>, i: nat): map<int, CacheRec>
    requires i < |s|
  {
    if i == 0 then cacheAt else SetCacheNext(cacheAt, s[i - 1], NextIn(s, i))
  }

  function AppendCache(cacheAt: map<int, CacheRec>, s: seq<int>, c: int): map<int, CacheRec> {
    if s == [] then cacheAt else SetCacheNext(cacheAt, s[|s| - 1], c)
  }

  /** A cache's fields point at its two slab lists, which are linked. */
  ghost predicate CacheHeld(cacheAt: map<int, CacheRec>, next: map<int, int>, c: int, cache: Cache) {
    && c in cacheAt
    && cacheAt[c].size == cache.size
    && cacheAt[c].avail == First(cache.avail) && cacheAt[c].full == First(cache.full)
    && Linked(next, cache.avail) && Linked(next, cache.full)
  }

  ghost predicate CachesHeld(cacheAt: map<int, CacheRec>, next: map<int, int>, caches: map<int, Cache>) {
    forall c :: c in caches ==> CacheHeld(cacheAt, next, c, caches[c])
  }

  /** A slab's counters, and its pointer to the first free slot. */
  predicate SlabHeld(slabAt: map<int, SlabRec>, x: int, slab: Slab) {
    && x in slabAt && ValidSize(slab.size)
    && slabAt[x].max == slab.Max()
    && slabAt[x].objects == slab.Max() - |slab.free|
    && (slab.free != [] ==> slabAt[x].firstFree == SlotAddr(x, slab.size, slab.free[0]))
  }

  ghost predicate SlabsHeld(slabAt: map<int, SlabRec>, slabs: map<int, Slab>) {
    forall x :: x in slabs ==> SlabHeld(slabAt, x, slabs[x])
  }

  /** What the free object at position j of the chain holds: the next one, or the end of the chain. */
  function ChainNext(x: int, slab: Slab, j: nat): int
    requires j < |slab.free| && ValidSize(slab.size)
  {
    if j + 1 < |slab.free| then SlotAddr(x, slab.size, slab.free[j + 1])
    else if slab.pristine then SlotAddr(x, slab.size, slab.Max())
    else NULL
  }

  predicate WordAt(word: map<int, int>, x: int, slab: Slab, j: nat)
    requires j < |slab.free| && ValidSize(slab.size)
  {
    var a := SlotAddr(x, slab.size, slab.free[j]);
    a in word && word[a] == ChainNext(x, slab, j)
  }

  /** The free chain is threaded through the first words of the free objects. */
  ghost predicate Threaded(word: map<int, int>, x: int, slab: Slab) {
    ValidSize(slab.size) && forall j :: 0 <= j < |slab.free| ==> WordAt(word, x, slab, j)
  }

  ghost predicate WordsHeld(word: map<int, int>, slabs: map<int, Slab>) {
    forall x :: x in slabs ==> Threaded(word, x, slabs[x])
  }

  /** The fields of struct heap and the memory its pointers lead to. */
  datatype Memory = Memory(
    idleCache: int, idleSlab: int, freeSpace: int, firstCache: int, heapEnd: int,
    cacheAt: map<int, CacheRec>, slabAt: map<int, SlabRec>, word: map<int, int>)

  /** Do fields and records stand for h? */
  ghost predicate Rep(m: Memory, h: Heap) {
    && m.freeSpace == h.brk && m.heapEnd == h.end
    && m.firstCache == First(h.list) && Linked(CacheNext(m.cacheAt), h.list)
    && m.idleCache == First(h.idleCaches) && Linked(CacheNext(m.cacheAt), h.idleCaches)
    && m.idleSlab == First(h.idleSlabs) && Linked(SlabNext(m.slabAt), h.idleSlabs)
    && CachesHeld(m.cacheAt, SlabNext(m.slabAt), h.caches)
    && SlabsHeld(m.slabAt, h.slabs)
    && WordsHeld(m.word, h.slabs)
  }

  // ----- Words that may change -----

  /** Did no word that overlaps the n bytes at p change? */
  ghost predicate Untouched(word: map<int, int>, word': map<int, int>, p: int, n: int) {
    forall a :: p - 8 < a < p + n ==> (a in word <==> a in word') && (a in word ==> word'[a] == word[a])
  }

  /** Words outside a slab's object area leave its chain alone. */
  lemma ThreadedFrame(word: map<int, int>, word': map<int, int>, x: int, slab: Slab)
    requires Threaded(word, x, slab) && SlabOk(slab)
    requires forall a :: x + SLAB_HEADER <= a < x + SLAB_BYTES && a in word ==> a in word' && word'[a] == word[a]
    ensures Threaded(word', x, slab)
  {
    forall j | 0 <= j < |slab.free| ensures WordAt(word', x, slab, j) {
      assert WordAt(word, x, slab, j);
      var k := slab.free[j];
      assert k in slab.free;
      SlotInSlab(x, slab.size, k);
    }
  }

  /** Words may change inside slab x only. */
  lemma WordsFrame(h: Heap, word: map<int, int>, word': map<int, int>, x: int)
    requires Sound(h) && WordsHeld(word, h.slabs) && Record(x, SlabRecord) in h.carved
    requires forall a :: !(x + SLAB_HEADER <= a < x + SLAB_BYTES) && a in word ==> a in word' && word'[a] == word[a]
    ensures forall y :: y in h.slabs && y != x ==> Threaded(word', y, h.slabs[y])
  {
    forall y | y in h.slabs && y != x ensures Threaded(word', y, h.slabs[y]) {
      SlabsApart(h, x, y);
      assert Threaded(word, y, h.slabs[y]);
      ThreadedFrame(word, word', y, h.slabs[y]);
    }
  }

  /** Programs may write anything into their live objects: no free chain is disturbed. */
  lemma LiveWritesHarmless(h: Heap, word: map<int, int>, word': map<int, int>)
    requires Sound(h) && WordsHeld(word, h.slabs)
    requires forall a :: a in word && !InLiveObject(h, a) ==> a in word' && word'[a] == word[a]
    ensures WordsHeld(word', h.slabs)
  {
    forall x | x in h.slabs ensures Threaded(word', x, h.slabs[x]) {
      assert Threaded(word, x, h.slabs[x]);
      forall j | 0 <= j < |h.slabs[x].free| ensures WordAt(word', x, h.slabs[x], j) {
        assert WordAt(word, x, h.slabs[x], j);
        FreeWordNotLive(h, x, j);
      }
    }
  }

  /** Does a word at a overlap a live object? */
  ghost predicate InLiveObject(h: Heap, a: int) {
    exists p :: p in h.live && h.live[p].slab in h.slabs && p - 8 < a < p + h.slabs[h.live[p].slab].size
  }

  lemma FreeWordNotLive(h: Heap, x: int, j: nat)
    requires Sound(h) && x in h.slabs && j < |h.slabs[x].free|
    ensures !InLiveObject(h, SlotAddr(x, h.slabs[x].size, h.slabs[x].free[j]))
  {
    var k := h.slabs[x].free[j];
    assert SlabOk(h.slabs[x]) && k in h.slabs[x].free;
    forall p | p in h.live && h.live[p].slab in h.slabs
      ensures !(p - 8 < SlotAddr(x, h.slabs[x].size, k) < p + h.slabs[h.live[p].slab].size)
    {
      assert Placed(h.slabs, p, h.live[p]);
      SlotsApart(h, x, k, h.live[p].slab, h.live[p].slot);
    }
  }
}
