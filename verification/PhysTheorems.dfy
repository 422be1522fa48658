/** What every run of the physical memory manager keeps, and what its lists mean byte by byte. */
module PhysTheorems {
  import opened Machine
  import opened PhysSpec

  // ----- The list is a function of what is occupied -----

  /** The occupied parts: every block without its gap. */
  ghost function Occupied(s: seq<Block>): set<Block> {
    set i | 0 <= i < |s| :: s[i].Erased()
  }

  ghost function LiveObjects(s: seq<Block>): set<Block> {
    set b | b in Occupied(s) && b.kind.Object?
  }

  lemma OccupiedOfPrefix(s: seq<Block>)
    requires Ascending(s) && |s| > 0
    ensures Occupied(s[..|s| - 1]) == Occupied(s) - {s[|s| - 1].Erased()}
  {
    var p := s[..|s| - 1];
    forall b | b in Occupied(s) - {s[|s| - 1].Erased()} ensures b in Occupied(p) {
      var i :| 0 <= i < |s| && s[i].Erased() == b;
      assert p[i].Erased() == b;
    }
    forall b | b in Occupied(p) ensures b in Occupied(s) && b != s[|s| - 1].Erased() {
      var i :| 0 <= i < |p| && p[i].Erased() == b;
      assert s[i].Erased() == b;
    }
  }

  lemma {:induction false} SameOccupiedSameOrder(s: seq<Block>, t: seq<Block>)
    requires Ascending(s) && Ascending(t) && Occupied(s) == Occupied(t)
    ensures |s| == |t| && forall i :: 0 <= i < |s| ==> s[i].Erased() == t[i].Erased()
    decreases |s|
  {
    if |s| > 0 {
      assert s[|s| - 1].Erased() in Occupied(t);
    }
    if |t| > 0 {
      assert t[|t| - 1].Erased() in Occupied(s);
    }
    if |s| > 0 && |t| > 0 {
      var a, b := s[|s| - 1], t[|t| - 1];
      var j :| 0 <= j < |t| && t[j].Erased() == a.Erased();
      var k :| 0 <= k < |s| && s[k].Erased() == b.Erased();
      assert a.addr == b.addr;
      OccupiedOfPrefix(s);
      OccupiedOfPrefix(t);
      SameOccupiedSameOrder(s[..|s| - 1], t[..|t| - 1]);
      forall i | 0 <= i < |s| ensures s[i].Erased() == t[i].Erased() {
        if i < |s| - 1 {
          assert s[i] == s[..|s| - 1][i] && t[i] == t[..|t| - 1][i];
        }
      }
    }
  }

  /**
   The free gaps hold no information: two tiled lists that occupy the same memory are the same list,
   however many splits and merges, in whatever order, led to them.
   */
  lemma ListDeterminedByOccupied(s: seq<Block>, t: seq<Block>)
    requires Tiled(s) && Tiled(t) && Occupied(s) == Occupied(t)
    ensures s == t
  {
    TiledAscends(s);
    TiledAscends(t);
    SameOccupiedSameOrder(s, t);
    forall i | 0 <= i < |s| ensures s[i] == t[i] {
      assert Abuts(s, i) && Abuts(t, i);
      assert s[i].Erased() == t[i].Erased();
      if i + 1 < |s| {
        assert s[i + 1].Erased() == t[i + 1].Erased();
      }
    }
  }

  // ----- What one operation does to what is occupied -----

  /** The block an allocation creates. */
  ghost function NewObject(s: seq<Block>, size: U64): Block
    requires Tiled(s) && BestFit(s, Need(size)) >= 0
  {
    var b := s[BestFit(s, Need(size))];
    Block(b.GapStart(), Sub64(Need(size), HEADER), 0, b.limit, Object)
  }

  lemma AllocAddsOne(s: seq<Block>, size: U64)
    requires Tiled(s) && size <= TWO_TO_64 - 64
    ensures var (t, ptr) := AllocStep(s, size);
      if BestFit(s, Need(size)) < 0 then t == s && ptr == NULL
      else
        && ptr == NewObject(s, size).Payload()
        && NewObject(s, size).size >= size
        && NewObject(s, size) !in Occupied(s)
        && Occupied(t) == Occupied(s) + {NewObject(s, size)}
  {
    var need, i := Need(size), BestFit(s, Need(size));
    NeedCoversIff(size);
    hide Need;
    if i >= 0 {
      var t, nb := AllocStep(s, size).0, NewObject(s, size);
      EndsWithinLimit(s, i);
      AllocTiles(s, size);
      TiledAscends(t);
      assert t == Carve(s, i, need, Object);
      assert t[i + 1].Erased() == nb;
      forall k | 0 <= k < |s| ensures s[k].Erased() in Occupied(t) && s[k].Erased() != nb {
        var at := if k <= i then k else k + 1;
        assert t[at].Erased() == s[k].Erased();
        assert t[at].addr != t[i + 1].addr;
      }
      forall k | 0 <= k < |t| ensures t[k].Erased() in Occupied(s) + {nb} {
        if k != i + 1 {
          var from := if k <= i then k else k - 1;
          assert t[k].Erased() == s[from].Erased();
        }
      }
    }
  }

  lemma MergeRemovesOne(s: seq<Block>, i: nat)
    requires Ascending(s) && 0 < i < |s|
    ensures Occupied(Merge(s, i)) == Occupied(s) - {s[i].Erased()}
  {
    var t := Merge(s, i);
    forall b | b in Occupied(s) - {s[i].Erased()} ensures b in Occupied(t) {
      var k :| 0 <= k < |s| && s[k].Erased() == b;
      assert t[if k < i then k else k - 1].Erased() == s[k].Erased();
    }
    forall b | b in Occupied(t) ensures b in Occupied(s) - {s[i].Erased()} {
      var k :| 0 <= k < |t| && t[k].Erased() == b;
      var from := if k < i then k else k + 1;
      assert s[from].Erased() == b && s[from].addr != s[i].addr;
    }
  }

  lemma FreeRemovesOne(s: seq<Block>, ptr: int)
    requires Tiled(s) && IsLive(s, ptr)
    ensures var b := s[IndexOf(s, ptr - HEADER)].Erased();
      b in LiveObjects(s) && b.Payload() == ptr && Occupied(FreeStep(s, ptr)) == Occupied(s) - {b}
  {
    FreeTiles(s, ptr);
    TiledAscends(s);
    MergeRemovesOne(s, IndexOf(s, ptr - HEADER));
    hide Merge, Tiled, Ascending;
    assert s[IndexOf(s, ptr - HEADER)].Erased() in Occupied(s);
  }

  /** A pointer is live exactly when it is the payload of a live object. */
  lemma LiveIff(s: seq<Block>, ptr: int)
    requires Tiled(s)
    ensures IsLive(s, ptr) <==> exists b :: b in LiveObjects(s) && b.Payload() == ptr
  {
    if IsLive(s, ptr) {
      FreeRemovesOne(s, ptr);
    }
    forall b | b in LiveObjects(s) && b.Payload() == ptr ensures IsLive(s, ptr) {
      ObjectIsLive(s, b);
    }
  }

  lemma ObjectIsLive(s: seq<Block>, b: Block)
    requires Tiled(s) && b in LiveObjects(s)
    ensures IsLive(s, b.Payload()) && s[IndexOf(s, b.addr)].Erased() == b
  {
    var i :| 0 <= i < |s| && s[i].Erased() == b;
    TiledAscends(s);
    IndexOfUnique(s, i);
  }

  /** An allocation makes one pointer live, and a free makes one dead; all others stay as they were. */
  lemma AllocLiveExactly(s: seq<Block>, size: U64, q: int)
    requires Tiled(s) && size <= TWO_TO_64 - 64
    ensures var (t, p) := AllocStep(s, size);
      Tiled(t) && (IsLive(t, q) <==> IsLive(s, q) || (p != NULL && q == p))
    ensures AllocStep(s, size).1 != NULL ==> !IsLive(s, AllocStep(s, size).1)
  {
    var (t, p) := AllocStep(s, size);
    AllocTiles(s, size);
    AllocAddsOne(s, size);
    LiveIff(s, q);
    LiveIff(t, q);
    if p != NULL {
      LiveIff(s, p);
      assert LiveObjects(t) == LiveObjects(s) + {NewObject(s, size)};
      forall b | b in LiveObjects(s) ensures b.Payload() != p {
        ObjectIsLive(t, b);
        ObjectIsLive(t, NewObject(s, size));
      }
    }
  }

  lemma FreeLiveExactly(s: seq<Block>, ptr: int, q: int)
    requires Tiled(s) && IsLive(s, ptr)
    ensures Tiled(FreeStep(s, ptr)) && (IsLive(FreeStep(s, ptr), q) <==> IsLive(s, q) && q != ptr)
  {
    var t := FreeStep(s, ptr);
    FreeTiles(s, ptr);
    FreeRemovesOne(s, ptr);
    if q == ptr {
      LiveIff(t, q);
      forall b | b in LiveObjects(t) ensures b.Payload() != ptr {
        ObjectIsLive(s, b);
      }
    } else if IsLive(s, q) {
      FreeLeavesOthersLive(s, ptr, q);
    } else {
      LiveIff(s, q);
      LiveIff(t, q);
      assert LiveObjects(t) <= LiveObjects(s);
    }
  }

  lemma LiveNotNull(s: seq<Block>, ptr: int)
    requires Tiled(s) && IsLive(s, ptr)
    ensures ptr > HEADER
  {
    assert Sane(s[IndexOf(s, ptr - HEADER)]);
  }

  // ----- Freeing -----

  /** Two live blocks may be freed in either order: both orders leave the very same list. */
  lemma FreesCommute(s: seq<Block>, p: int, q: int)
    requires Tiled(s) && IsLive(s, p) && IsLive(s, q) && p != q
    ensures Tiled(FreeStep(s, p)) && IsLive(FreeStep(s, p), q)
    ensures Tiled(FreeStep(s, q)) && IsLive(FreeStep(s, q), p)
    ensures FreeStep(FreeStep(s, p), q) == FreeStep(FreeStep(s, q), p)
  {
    FreeLeavesOthersLive(s, p, q);
    FreeLeavesOthersLive(s, q, p);
    var sp, sq := FreeStep(s, p), FreeStep(s, q);
    FreeRemovesOne(sp, q);
    FreeRemovesOne(sq, p);
    FreeTiles(sp, q);
    FreeTiles(sq, p);
    ListDeterminedByOccupied(FreeStep(sp, q), FreeStep(sq, p));
  }

  lemma FreeLeavesOthersLive(s: seq<Block>, p: int, q: int)
    requires Tiled(s) && IsLive(s, p) && IsLive(s, q) && p != q
    ensures Tiled(FreeStep(s, p)) && IsLive(FreeStep(s, p), q)
    ensures var t := FreeStep(s, p);
      t[IndexOf(t, q - HEADER)].Erased() == s[IndexOf(s, q - HEADER)].Erased()
    ensures Occupied(FreeStep(s, p)) == Occupied(s) - {s[IndexOf(s, p - HEADER)].Erased()}
  {
    FreeTiles(s, p);
    FreeRemovesOne(s, p);
    FreeRemovesOne(s, q);
    var t, b := FreeStep(s, p), s[IndexOf(s, q - HEADER)].Erased();
    assert b in LiveObjects(t) && b.Payload() == q;
    ObjectIsLive(t, b);
  }

  /** Freeing a block straight after allocating it restores the list exactly. */
  lemma FreeUndoesAlloc(s: seq<Block>, size: U64)
    requires Tiled(s) && size <= TWO_TO_64 - 64 && AllocStep(s, size).1 != NULL
    ensures var (t, ptr) := AllocStep(s, size);
      Tiled(t) && IsLive(t, ptr) && FreeStep(t, ptr) == s
  {
    var (t, ptr) := AllocStep(s, size);
    AllocTiles(s, size);
    AllocAddsOne(s, size);
    ObjectIsLive(t, NewObject(s, size));
    FreeRemovesOne(t, ptr);
    FreeTiles(t, ptr);
    assert Occupied(FreeStep(t, ptr)) == Occupied(s);
    ListDeterminedByOccupied(FreeStep(t, ptr), s);
  }

  // ----- Whole runs -----

  ghost function Pinned(s: seq<Block>): set<Block> {
    Occupied(s) - LiveObjects(s)
  }

  lemma StepKeepsPinned(s: seq<Block>, op: Op)
    requires Tiled(s) && Legal(s, op)
    ensures Pinned(Step(s, op)) == Pinned(s)
  {
    match op
    case Alloc(size) => AllocAddsOne(s, size);
    case Free(ptr) => FreeRemovesOne(s, ptr);
  }

  lemma {:induction false} RunKeepsPinned(s: seq<Block>, ops: seq<Op>)
    requires Tiled(s) && LegalRun(s, ops)
    ensures Pinned(Run(s, ops)) == Pinned(s)
    decreases |ops|
  {
    if ops != [] {
      StepKeepsPinned(s, ops[0]);
      RunKeepsPinned(Step(s, ops[0]), ops[1..]);
    }
  }

  /**
   Any two runs that leave the same objects allocated leave the same list: nothing else of the history
   (order of frees, fragmentation on the way) survives.
   */
  lemma RunsMeet(s: seq<Block>, ops: seq<Op>, ops': seq<Op>)
    requires Tiled(s) && LegalRun(s, ops) && LegalRun(s, ops')
    requires LiveObjects(Run(s, ops)) == LiveObjects(Run(s, ops'))
    ensures Run(s, ops) == Run(s, ops')
  {
    RunKeepsPinned(s, ops);
    RunKeepsPinned(s, ops');
    var t, t' := Run(s, ops), Run(s, ops');
    assert Occupied(t) == Pinned(t) + LiveObjects(t);
    assert Occupied(t') == Pinned(t') + LiveObjects(t');
    ListDeterminedByOccupied(t, t');
  }

  /** Once everything a run allocated is freed, in any order, the list is the one prep_mem left. */
  lemma FreeingAllRestores(s: seq<Block>, ops: seq<Op>)
    requires Tiled(s) && LiveObjects(s) == {} && LegalRun(s, ops)
    requires LiveObjects(Run(s, ops)) == {}
    ensures Run(s, ops) == s
  {
    assert LegalRun(s, []) && Run(s, []) == s;
    RunsMeet(s, ops, []);
  }

  // ----- Memory safety -----

  /** Bytes lo up to hi of one range and lo' up to hi' of another do not meet. */
  predicate Apart(lo: int, hi: int, lo': int, hi': int) {
    hi <= lo' || hi' <= lo
  }

  /** No header or payload overlaps another block, and every block lies inside its E820 region. */
  lemma BlocksDisjoint(s: seq<Block>, i: nat, j: nat)
    requires Tiled(s) && i < |s| && j < |s| && i != j
    ensures Apart(s[i].addr, s[i].End(), s[j].addr, s[j].End())
    ensures s[i].End() <= s[i].limit <= TWO_TO_64
  {
    EndsWithinLimit(s, i);
    if i < j {
      SeparatedBefore(s, i, j);
    } else {
      SeparatedBefore(s, j, i);
    }
  }

  /** The head of block i's region: the nearest region head at or before it. */
  function HeadOf(s: seq<Block>, i: nat): (h: nat)
    requires i < |s| && s[0].kind.Head?
    ensures h <= i && s[h].kind.Head?
    ensures forall k :: h < k <= i ==> !s[k].kind.Head?
  {
    if s[i].kind.Head? then i else HeadOf(s, i - 1)
  }

  /** Does a lie in a usable region, outside every header and every payload? */
  ghost predicate FreeByte(s: seq<Block>, a: int) {
    && (exists h :: 0 <= h < |s| && s[h].kind.Head? && s[h].addr <= a < s[h].limit)
    && (forall i :: 0 <= i < |s| ==> !(s[i].addr <= a < s[i].GapStart()))
  }

  /** Which block's span (header, payload, gap) holds the byte a of region h? */
  lemma {:induction false} SpanOf(s: seq<Block>, h: nat, a: int) returns (i: nat)
    requires Tiled(s) && h < |s|
    requires s[h].addr <= a < s[h].limit
    ensures h <= i < |s| && s[i].addr <= a < s[i].End()
    decreases |s| - h
  {
    assert Abuts(s, h);
    if a < s[h].End() {
      i := h;
    } else {
      i := SpanOf(s, h + 1, a);
    }
  }

  /** A free byte is a byte of some block's gap, and every byte of a gap is free. */
  lemma FreeByteIffInGap(s: seq<Block>, a: int)
    requires Tiled(s)
    ensures FreeByte(s, a) <==> exists i :: 0 <= i < |s| && s[i].GapStart() <= a < s[i].End()
  {
    if FreeByte(s, a) {
      var h :| 0 <= h < |s| && s[h].kind.Head? && s[h].addr <= a < s[h].limit;
      var i := SpanOf(s, h, a);
      assert s[i].GapStart() <= a;
    }
    if i :| 0 <= i < |s| && s[i].GapStart() <= a < s[i].End() {
      var h := HeadOf(s, i);
      SameRegion(s, h, i);
      EndsWithinLimit(s, i);
      assert s[h].addr <= a < s[h].limit;
      forall j | 0 <= j < |s| ensures !(s[j].addr <= a < s[j].GapStart()) {
        if i != j {
          BlocksDisjoint(s, i, j);
        }
      }
    }
  }

  lemma {:induction false} SameRegion(s: seq<Block>, h: nat, i: nat)
    requires Tiled(s) && h <= i < |s| && forall k :: h < k <= i ==> !s[k].kind.Head?
    ensures s[h].limit == s[i].limit && s[h].addr <= s[i].addr
    decreases i - h
  {
    if h < i {
      assert Abuts(s, h);
      SameRegion(s, h + 1, i);
    }
  }

  /** Are the n bytes from lo all free? */
  ghost predicate FreeRun(s: seq<Block>, lo: int, n: int) {
    forall a :: lo <= a < lo + n ==> FreeByte(s, a)
  }

  /** A run of free bytes never crosses from one gap into another. */
  lemma FreeRunInOneGap(s: seq<Block>, lo: int, n: int) returns (i: nat)
    requires Tiled(s) && 0 < n && FreeRun(s, lo, n)
    ensures i < |s| && s[i].GapStart() <= lo && lo + n <= s[i].End()
  {
    assert FreeByte(s, lo);
    FreeByteIffInGap(s, lo);
    i :| 0 <= i < |s| && s[i].GapStart() <= lo < s[i].End();
    if s[i].End() < lo + n {
      GapEndNotFree(s, i);
      assert false;
    }
  }

  /** What follows a gap is a header, or lies outside the region. */
  lemma GapEndNotFree(s: seq<Block>, i: nat)
    requires Tiled(s) && i < |s|
    ensures !FreeByte(s, s[i].End())
  {
    FreeByteIffInGap(s, s[i].End());
    forall j | 0 <= j < |s| ensures !(s[j].GapStart() <= s[i].End() < s[j].End()) {
      if j < i {
        SeparatedBefore(s, j, i);
      } else if i < j {
        SeparatedBefore(s, i, j);
      }
    }
  }

  /**
   The list search is complete for memory as bytes: an allocation fails exactly when nowhere in usable
   memory are there Need(size) consecutive bytes outside all headers and payloads.
   */
  lemma AllocFailsIffNoRun(s: seq<Block>, size: U64)
    requires Tiled(s) && size <= TWO_TO_64 - 64
    ensures AllocStep(s, size).1 == NULL <==> !exists lo :: FreeRun(s, lo, Need(size))
  {
    var need := Need(size);
    NeedCoversIff(size);
    var i := BestFit(s, need);
    if i >= 0 {
      var lo := s[i].GapStart();
      forall a | lo <= a < lo + need ensures FreeByte(s, a) {
        FreeByteIffInGap(s, a);
      }
      assert FreeRun(s, lo, need);
      assert s[i].addr > 0;
    } else if lo :| FreeRun(s, lo, need) {
      var j := FreeRunInOneGap(s, lo, need);
      assert false;
    }
  }

  /** The chosen gap is a smallest one that fits, and the lowest of those. */
  lemma AllocIsBestFit(s: seq<Block>, size: U64) returns (i: nat)
    requires Tiled(s) && AllocStep(s, size).1 != NULL
    ensures i < |s| && s[i].free >= Need(size) && AllocStep(s, size).1 == s[i].GapStart() + HEADER
    ensures forall j :: 0 <= j < |s| && s[j].free >= Need(size) ==>
      s[i].free < s[j].free || (s[i].free == s[j].free && s[i].addr <= s[j].addr)
  {
    i := BestFit(s, Need(size));
    TiledAscends(s);
  }

  // ----- Alignment -----

  /**
   Headers are 16-aligned outside the kernel's region.  Inside it (the region ending at klimit) everything
   after the kernel image is off by the kernel's own size, because prep_mem does not round that size.
   */
  ghost predicate Aligned(s: seq<Block>, klimit: int, shift: int) {
    forall i :: 0 <= i < |s| ==> AlignedAt(s, i, klimit, shift)
  }

  predicate AlignedAt(s: seq<Block>, i: nat, klimit: int, shift: int)
    requires i < |s|
  {
    match s[i].kind
    case Head =>
      s[i].addr % GRAIN == 0 && (s[i].limit == klimit ==> s[i].free == 0 && i + 1 < |s| && s[i + 1].kind.Kernel?)
    case Kernel =>
      s[i].addr % GRAIN == 0 && s[i].limit == klimit && (s[i].size + HEADER) % GRAIN == shift
    case Object =>
      s[i].size % GRAIN == 0 && s[i].addr % GRAIN == if s[i].limit == klimit then shift else 0
  }

  lemma CarveKeepsAligned(s: seq<Block>, i: nat, need: U64, klimit: int, shift: int)
    requires Tiled(s) && i < |s| && need % GRAIN == 0 && HEADER <= need <= s[i].free < TWO_TO_64
    requires Aligned(s, klimit, shift)
    ensures Aligned(Carve(s, i, need, Object), klimit, shift)
  {
    var t := Carve(s, i, need, Object);
    assert AlignedAt(s, i, klimit, shift);
    forall k | 0 <= k < |t| ensures AlignedAt(t, k, klimit, shift) {
      if k <= i {
        assert AlignedAt(s, k, klimit, shift);
      } else if k > i + 1 {
        assert t[k] == s[k - 1] && AlignedAt(s, k - 1, klimit, shift);
        assert k + 1 < |t| ==> t[k + 1] == s[k];
      } else {
        assert t[k].addr == s[i].addr + s[i].size + HEADER;
      }
    }
  }

  lemma MergeKeepsAligned(s: seq<Block>, i: nat, klimit: int, shift: int)
    requires Tiled(s) && 0 < i < |s| && s[i].kind.Object?
    requires Aligned(s, klimit, shift)
    ensures Aligned(Merge(s, i), klimit, shift)
  {
    var t := Merge(s, i);
    assert AlignedAt(s, i - 1, klimit, shift) && Abuts(s, i - 1);
    forall k | 0 <= k < |t| ensures AlignedAt(t, k, klimit, shift) {
      var from := if k < i then k else k + 1;
      assert AlignedAt(s, from, klimit, shift);
      assert t[k].Erased() == s[from].Erased();
      assert k + 1 < |t| && k != i - 1 ==> t[k + 1].Erased() == s[from + 1].Erased();
    }
  }

  lemma StepKeepsAligned(s: seq<Block>, op: Op, klimit: int, shift: int)
    requires Tiled(s) && Legal(s, op) && Aligned(s, klimit, shift)
    ensures Aligned(Step(s, op), klimit, shift)
  {
    match op {
      case Alloc(size) =>
        NeedCoversIff(size);
        var i := BestFit(s, Need(size));
        if i >= 0 {
          EndsWithinLimit(s, i);
          CarveKeepsAligned(s, i, Need(size), klimit, shift);
        }
      case Free(ptr) =>
        FreeTiles(s, ptr);
        MergeKeepsAligned(s, IndexOf(s, ptr - HEADER), klimit, shift);
    }
  }

  /** Over every run, each payload is 16-aligned, except those after the kernel image, which are all off by `shift`. */
  lemma {:induction false} RunKeepsAligned(s: seq<Block>, ops: seq<Op>, klimit: int, shift: int)
    requires Tiled(s) && LegalRun(s, ops) && Aligned(s, klimit, shift)
    ensures Aligned(Run(s, ops), klimit, shift)
    ensures forall b :: b in LiveObjects(Run(s, ops)) ==>
      b.Payload() % GRAIN == if b.limit == klimit then shift else 0
    decreases |ops|
  {
    if ops != [] {
      StepKeepsAligned(s, ops[0], klimit, shift);
      RunKeepsAligned(Step(s, ops[0]), ops[1..], klimit, shift);
    } else {
      forall b | b in LiveObjects(s) ensures b.Payload() % GRAIN == if b.limit == klimit then shift else 0 {
        var i :| 0 <= i < |s| && s[i].Erased() == b;
        assert AlignedAt(s, i, klimit, shift);
      }
    }
  }

  // ----- Conservation -----

  function GapBytes(s: seq<Block>): int {
    if s == [] then 0 else s[0].free + GapBytes(s[1..])
  }

  function OccupiedBytes(s: seq<Block>): int {
    if s == [] then 0 else HEADER + s[0].size + OccupiedBytes(s[1..])
  }

  /** Bytes of all regions, from each head to the region's end. */
  function RegionBytes(s: seq<Block>): int {
    if s == [] then 0 else (if s[0].kind.Head? then s[0].limit - s[0].addr else 0) + RegionBytes(s[1..])
  }

  lemma {:induction false} BytesOfConcat(s: seq<Block>, t: seq<Block>)
    ensures GapBytes(s + t) == GapBytes(s) + GapBytes(t)
    ensures OccupiedBytes(s + t) == OccupiedBytes(s) + OccupiedBytes(t)
    ensures RegionBytes(s + t) == RegionBytes(s) + RegionBytes(t)
  {
    if s == [] {
      assert s + t == t;
    } else {
      assert (s + t)[1..] == s[1..] + t;
      BytesOfConcat(s[1..], t);
    }
  }

  /** From block k on, occupied bytes and gaps fill what is left of block k's region and all later regions. */
  lemma {:induction false} BytesFrom(s: seq<Block>, k: nat)
    requires Tiled(s) && k <= |s|
    ensures GapBytes(s[k..]) + OccupiedBytes(s[k..])
      == RegionBytes(s[k..]) + if k < |s| && !s[k].kind.Head? then s[k].limit - s[k].addr else 0
    decreases |s| - k
  {
    if k < |s| {
      assert s[k..][1..] == s[k + 1..];
      assert Abuts(s, k);
      BytesFrom(s, k + 1);
    }
  }

  lemma BytesOfSplice(pre: seq<Block>, mid: seq<Block>, post: seq<Block>)
    ensures GapBytes(pre + mid + post) == GapBytes(pre) + GapBytes(mid) + GapBytes(post)
    ensures RegionBytes(pre + mid + post) == RegionBytes(pre) + RegionBytes(mid) + RegionBytes(post)
  {
    BytesOfConcat(pre + mid, post);
    BytesOfConcat(pre, mid);
  }

  lemma BytesOfPair(b: Block, c: Block)
    ensures GapBytes([b]) == b.free && GapBytes([b, c]) == b.free + c.free
    ensures !c.kind.Head? ==> RegionBytes([b, c]) == RegionBytes([b])
  {
    assert [b][1..] == [] && [c][1..] == [] && [b, c][1..] == [c];
  }

  lemma CarveMovesBytes(s: seq<Block>, i: nat, need: U64, kind: Kind)
    requires i < |s| && HEADER <= need <= s[i].free < TWO_TO_64 && !kind.Head?
    ensures RegionBytes(Carve(s, i, need, kind)) == RegionBytes(s)
    ensures GapBytes(Carve(s, i, need, kind)) == GapBytes(s) - need
  {
    var t := Carve(s, i, need, kind);
    assert s == s[..i] + [s[i]] + s[i + 1..];
    BytesOfSplice(s[..i], [s[i]], s[i + 1..]);
    BytesOfSplice(s[..i], [t[i], t[i + 1]], s[i + 1..]);
    BytesOfPair(s[i], s[i]);
    BytesOfPair(t[i], t[i + 1]);
  }

  lemma MergeMovesBytes(s: seq<Block>, i: nat)
    requires 0 < i < |s| && !s[i].kind.Head?
    ensures RegionBytes(Merge(s, i)) == RegionBytes(s)
    ensures GapBytes(Merge(s, i)) == GapBytes(s) + HEADER + s[i].size
  {
    var t := Merge(s, i);
    assert s == s[..i - 1] + [s[i - 1], s[i]] + s[i + 1..];
    BytesOfSplice(s[..i - 1], [s[i - 1], s[i]], s[i + 1..]);
    BytesOfSplice(s[..i - 1], [t[i - 1]], s[i + 1..]);
    BytesOfPair(s[i - 1], s[i]);
    BytesOfPair(t[i - 1], t[i - 1]);
  }

  /** Conservation: an operation moves bytes between gaps and occupied memory and never loses one. */
  lemma StepMovesBytes(s: seq<Block>, op: Op)
    requires Tiled(s) && Legal(s, op)
    ensures RegionBytes(Step(s, op)) == RegionBytes(s)
    ensures op.Alloc? && AllocStep(s, op.size).1 != NULL ==> GapBytes(Step(s, op)) == GapBytes(s) - Need(op.size)
    ensures op.Free? ==>
      GapBytes(Step(s, op)) == GapBytes(s) + HEADER + s[IndexOf(s, op.ptr - HEADER)].size
  {
    match op {
      case Alloc(size) =>
        NeedCoversIff(size);
        var i := BestFit(s, Need(size));
        if i >= 0 {
          EndsWithinLimit(s, i);
          CarveMovesBytes(s, i, Need(size), Object);
        }
      case Free(ptr) =>
        FreeTiles(s, ptr);
        MergeMovesBytes(s, IndexOf(s, ptr - HEADER));
    }
  }

  /** After any run, gaps and occupied memory add up to the usable memory the run started with. */
  lemma {:induction false} RunConservesBytes(s: seq<Block>, ops: seq<Op>)
    requires Tiled(s) && LegalRun(s, ops)
    ensures GapBytes(Run(s, ops)) + OccupiedBytes(Run(s, ops)) == RegionBytes(s)
    decreases |ops|
  {
    if ops == [] {
      BytesFrom(s, 0);
      assert s[0..] == s;
    } else {
      StepMovesBytes(s, ops[0]);
      RunConservesBytes(Step(s, ops[0]), ops[1..]);
    }
  }
}
