/** What prep_mem leaves behind, and what that means for every later run. */
module BootTheorems {
  import opened Machine
  import opened PhysSpec
  import opened PhysTheorems
  import opened PhysMem

  /** The map alone decides the list of regions: the order of its entries does not matter. */
  lemma EntryOrderIrrelevant(s: seq<Block>, es: seq<Entry>, t: seq<Block>, es': seq<Entry>)
    requires SortedRegions(s, es, |es|) && SortedRegions(t, es', |es'|)
    requires Regions(es, |es|) == Regions(es', |es'|)
    ensures s == t
  {
    OccupiedFromMembers(s);
    OccupiedFromMembers(t);
    ListDeterminedByOccupied(s, t);
  }

  /**
   Is a the first multiple of 16 in a usable entry above the first megabyte that has more than a header left there?
   */
  predicate HeadBelongs(e: Entry, a: int) {
    && e.kind == 1 && e.address >= 0x10_0000
    && a % 16 == 0 && e.address <= a < e.address + 16
    && a + 48 < e.address + e.length
  }

  /** Nothing between a head and the end of its entry but its gap. */
  predicate Covers(b: Block, e: Entry) {
    b.limit == e.address + e.length && b.size == 0 && b.addr + 48 + b.free == b.limit
  }

  lemma HeadBelongsIff(e: Entry, a: int)
    ensures HeadBelongs(e, a) <==> e.Qualifies() && e.Region().addr == a
  {
  }

  /** There is a head wherever one belongs and nowhere else; its gap reaches the end of its entry. */
  lemma HeadsExactly(s: seq<Block>, es: seq<Entry>, a: int)
    requires SortedRegions(s, es, |es|)
    ensures (exists i :: 0 <= i < |s| && s[i].addr == a) <==> (exists k :: 0 <= k < |es| && HeadBelongs(es[k], a))
    ensures forall i :: 0 <= i < |s| && s[i].addr == a ==>
      exists k :: 0 <= k < |es| && HeadBelongs(es[k], a) && Covers(s[i], es[k])
  {
    forall i | 0 <= i < |s| && s[i].addr == a
      ensures exists k :: 0 <= k < |es| && HeadBelongs(es[k], a) && Covers(s[i], es[k])
    {
      assert s[i] in Members(s);
      var k :| 0 <= k < |es| && es[k].Qualifies() && es[k].Region() == s[i];
      HeadBelongsIff(es[k], a);
    }
    if k :| 0 <= k < |es| && HeadBelongs(es[k], a) {
      HeadBelongsIff(es[k], a);
      assert es[k].Region() in Regions(es, |es|);
      var i :| 0 <= i < |s| && s[i] == es[k].Region();
    }
  }

  lemma OccupiedFromMembers(s: seq<Block>)
    ensures Occupied(s) == set b | b in Members(s) :: b.Erased()
  {
    forall i | 0 <= i < |s| ensures s[i] in Members(s) {
    }
  }

  /** The list after a successful prep_mem. */
  ghost function Booted(heads: seq<Block>, i: nat, kernelSize: U64): (s: seq<Block>)
    requires Tiled(heads) && AllHeads(heads) && i < |heads| && HEADER <= kernelSize <= heads[i].free
    ensures Tiled(s)
  {
    EndsWithinLimit(heads, i);
    CarveTilesIff(heads, i, kernelSize, Kernel);
    Carve(heads, i, kernelSize, Kernel)
  }

  /** prep_mem allocates nothing, and leaves the alignment every run then keeps. */
  lemma BootedIsInitial(heads: seq<Block>, es: seq<Entry>, i: nat, kernelSize: U64)
    requires SortedRegions(heads, es, |es|) && i < |heads| && HEADER <= kernelSize <= heads[i].free
    ensures var s := Booted(heads, i, kernelSize);
      LiveObjects(s) == {} && Aligned(s, heads[i].limit, kernelSize % GRAIN)
  {
    var s := Booted(heads, i, kernelSize);
    EndsWithinLimit(heads, i);
    forall k | 0 <= k < |s| ensures !s[k].kind.Object? && AlignedAt(s, k, heads[i].limit, kernelSize % GRAIN) {
      if k != i + 1 {
        var from := if k <= i then k else k - 1;
        assert s[k].Erased() == heads[from].Erased();
        assert heads[from] in Members(heads);
        var m :| 0 <= m < |es| && es[m].Qualifies() && es[m].Region() == heads[from];
        RegionAligned(es[m]);
        if from != i {
          LimitsDiffer(heads, from, i);
        }
      } else {
        assert heads[i] in Members(heads);
        var m :| 0 <= m < |es| && es[m].Qualifies() && es[m].Region() == heads[i];
        RegionAligned(es[m]);
      }
    }
  }

  lemma RegionAligned(e: Entry)
    ensures e.Region().addr % GRAIN == 0
  {
  }

  lemma LimitsDiffer(s: seq<Block>, i: nat, j: nat)
    requires Tiled(s) && AllHeads(s) && i < |s| && j < |s| && i != j
    ensures s[i].limit != s[j].limit
  {
    assert Abuts(s, i) && Abuts(s, j);
    if i < j {
      SeparatedBefore(s, i, j);
    } else {
      SeparatedBefore(s, j, i);
    }
  }

  /**
   No header and no payload of an object touches the reserved bytes of the kernel image (those from its first
   byte up to 48 short of the size given to prep_mem) in any state that still has prep_mem's blocks.
   */
  lemma KernelBytesApart(heads: seq<Block>, i: nat, kernelSize: U64, t: seq<Block>, b: Block)
    requires Tiled(heads) && AllHeads(heads) && i < |heads| && HEADER <= kernelSize <= heads[i].free
    requires Tiled(t) && Pinned(t) == Pinned(Booted(heads, i, kernelSize)) && b in LiveObjects(t)
    ensures var kernel := heads[i].addr + 2 * HEADER;
      Apart(b.addr, b.GapStart(), kernel, kernel + kernelSize - HEADER)
  {
    var s := Booted(heads, i, kernelSize);
    EndsWithinLimit(heads, i);
    assert heads[i].kind.Head? && heads[i].size == 0 by {
      assert Sane(heads[i]);
    }
    var kb := s[i + 1].Erased();
    assert kb in Pinned(s);
    var x :| 0 <= x < |t| && t[x].Erased() == b;
    var y :| 0 <= y < |t| && t[y].Erased() == kb;
    BlocksDisjoint(t, x, y);
    assert Sane(t[x]) && Sane(t[y]);
  }

  /** So it is through every run of phys_alloc and phys_free. */
  lemma KernelNeverOverwritten(heads: seq<Block>, i: nat, kernelSize: U64, ops: seq<Op>, b: Block)
    requires Tiled(heads) && AllHeads(heads) && i < |heads| && HEADER <= kernelSize <= heads[i].free
    requires LegalRun(Booted(heads, i, kernelSize), ops)
    requires b in LiveObjects(Run(Booted(heads, i, kernelSize), ops))
    ensures var kernel := heads[i].addr + 2 * HEADER;
      Apart(b.addr, b.GapStart(), kernel, kernel + kernelSize - HEADER)
  {
    var s := Booted(heads, i, kernelSize);
    RunKeepsPinned(s, ops);
    KernelBytesApart(heads, i, kernelSize, Run(s, ops), b);
  }

  /**
   The last 48 bytes of that size are not reserved: where the region has them, they start the gap behind the kernel
   block.
   */
  lemma KernelTailNotReserved(heads: seq<Block>, i: nat, kernelSize: U64)
    requires Tiled(heads) && AllHeads(heads) && i < |heads| && HEADER <= kernelSize <= heads[i].free - HEADER
    ensures var tail := heads[i].addr + HEADER + kernelSize;
      FreeRun(Booted(heads, i, kernelSize), tail, HEADER)
      && tail == (heads[i].addr + 2 * HEADER) + kernelSize - HEADER
  {
    var s := Booted(heads, i, kernelSize);
    EndsWithinLimit(heads, i);
    assert Sane(heads[i]);
    var tail := heads[i].addr + HEADER + kernelSize;
    assert s[i + 1].GapStart() == tail;
    forall a | tail <= a < tail + HEADER ensures FreeByte(s, a) {
      FreeByteIffInGap(s, a);
    }
  }

  // ----- When the last 48 bytes are overwritten -----

  /** Some run of phys_alloc and phys_free leaves an object with header or payload on bytes lo up to hi. */
  ghost predicate Reaches(s: seq<Block>, lo: int, hi: int)
    requires Tiled(s)
  {
    exists ops, b :: LegalRun(s, ops) && b in LiveObjects(Run(s, ops)) && !Apart(b.addr, b.GapStart(), lo, hi)
  }

  /**
   phys_alloc can be made to overwrite the kernel exactly when the gap behind the kernel block holds the smallest
   object, 64 bytes with its header: the object that goes there begins 48 bytes before the kernel's end.
   */
  lemma KernelOverwrittenIff(heads: seq<Block>, i: nat, kernelSize: U64)
    requires Tiled(heads) && AllHeads(heads) && i < |heads| && HEADER <= kernelSize <= heads[i].free
    ensures var kernel, left := heads[i].addr + 2 * HEADER, heads[i].free - kernelSize;
      Reaches(Booted(heads, i, kernelSize), kernel, kernel + kernelSize) <==> left >= HEADER + GRAIN
  {
    var s := Booted(heads, i, kernelSize);
    var kernel := heads[i].addr + 2 * HEADER;
    EndsWithinLimit(heads, i);
    assert Sane(heads[i]);
    assert s[i + 1].GapStart() == kernel + kernelSize - HEADER && s[i + 1].free == heads[i].free - kernelSize;
    if heads[i].free - kernelSize >= HEADER + GRAIN {
      var ops, b := FillsGap(s, i + 1);
      assert !Apart(b.addr, b.GapStart(), kernel, kernel + kernelSize);
    } else {
      assert Abuts(heads, i);
      var kb := s[i + 1];
      assert kb in Members(s);
      forall ops, b | LegalRun(s, ops) && b in LiveObjects(Run(s, ops))
        ensures Apart(b.addr, b.GapStart(), kernel, kernel + kernelSize)
      {
        RunKeepsEnd(s, ops, kb);
        ObjectsClear(Run(s, ops), kb, b);
      }
    }
  }

  /** Asking for 16 bytes again and again, best fit ends up cutting the gap of any given block that holds them. */
  lemma {:induction false} FillsGap(s: seq<Block>, y: nat) returns (ops: seq<Op>, b: Block)
    requires Tiled(s) && y < |s| && s[y].free >= HEADER + GRAIN
    ensures LegalRun(s, ops) && b in LiveObjects(Run(s, ops))
    ensures b.addr == s[y].GapStart() && b.size >= 0
    decreases GapBytes(s)
  {
    var op := Alloc(GRAIN);
    var i := BestFit(s, Need(GRAIN));
    EndsWithinLimit(s, i);
    AllocAddsOne(s, GRAIN);
    StepMovesBytes(s, op);
    var t := Step(s, op);
    GapBytesNonNegative(t);
    if i == y {
      ops, b := [op], NewObject(s, GRAIN);
      assert Run(t, []) == t;
    } else {
      var y' := if i < y then y + 1 else y;
      assert t[y'] == s[y];
      var rest;
      rest, b := FillsGap(t, y');
      ops := [op] + rest;
      assert ops[1..] == rest;
    }
  }

  lemma {:induction false} GapBytesNonNegative(s: seq<Block>)
    requires forall i :: 0 <= i < |s| ==> Sane(s[i])
    ensures GapBytes(s) >= 0
  {
    if s != [] {
      GapBytesNonNegative(s[1..]);
    }
  }

  /** A block that ends its region with a gap too small for any object. */
  ghost predicate EndsRegion(s: seq<Block>, kb: Block) {
    kb in Members(s) && !kb.kind.Object? && kb.End() == kb.limit && kb.free < HEADER + GRAIN
  }

  lemma NextIsHead(s: seq<Block>, y: nat)
    requires Tiled(s) && y + 1 < |s| && s[y].End() == s[y].limit
    ensures s[y + 1].kind.Head?
  {
    assert Sane(s[y + 1]) && Abuts(s, y);
    EndsWithinLimit(s, y + 1);
  }

  lemma CarveKeepsEnd(s: seq<Block>, i: nat, need: U64, kb: Block)
    requires i < |s| && HEADER + GRAIN <= need <= s[i].free < TWO_TO_64 && EndsRegion(s, kb)
    ensures EndsRegion(Carve(s, i, need, Object), kb)
  {
    var y :| 0 <= y < |s| && s[y] == kb;
    assert Carve(s, i, need, Object)[if i < y then y + 1 else y] == kb;
  }

  lemma MergeKeepsEnd(s: seq<Block>, j: nat, kb: Block)
    requires Tiled(s) && 0 < j < |s| && s[j].kind.Object? && EndsRegion(s, kb)
    ensures EndsRegion(Merge(s, j), kb)
  {
    var y :| 0 <= y < |s| && s[y] == kb;
    if y + 1 < |s| {
      NextIsHead(s, y);
    }
    assert Merge(s, j)[if j < y then y - 1 else y] == kb;
  }

  lemma StepKeepsEnd(s: seq<Block>, op: Op, kb: Block)
    requires Tiled(s) && Legal(s, op) && EndsRegion(s, kb)
    ensures EndsRegion(Step(s, op), kb)
  {
    hide EndsRegion, Carve, Merge, Need;
    match op
    case Alloc(size) =>
      NeedCoversIff(size);
      var i := BestFit(s, Need(size));
      if i >= 0 {
        EndsWithinLimit(s, i);
        CarveKeepsEnd(s, i, Need(size), kb);
      }
    case Free(ptr) =>
      FreeTiles(s, ptr);
      MergeKeepsEnd(s, IndexOf(s, ptr - HEADER), kb);
  }

  lemma {:induction false} RunKeepsEnd(s: seq<Block>, ops: seq<Op>, kb: Block)
    requires Tiled(s) && LegalRun(s, ops) && EndsRegion(s, kb)
    ensures EndsRegion(Run(s, ops), kb)
    decreases |ops|
  {
    if ops != [] {
      StepKeepsEnd(s, ops[0], kb);
      RunKeepsEnd(Step(s, ops[0]), ops[1..], kb);
    }
  }

  /** No object touches such a block or the 48 bytes behind its region, where only another region's head may lie. */
  lemma ObjectsClear(s: seq<Block>, kb: Block, b: Block)
    requires Tiled(s) && EndsRegion(s, kb) && b in LiveObjects(s)
    ensures Apart(b.addr, b.GapStart(), kb.addr, kb.limit + HEADER)
  {
    var y :| 0 <= y < |s| && s[y] == kb;
    var x :| 0 <= x < |s| && s[x].kind.Object? && s[x].Erased() == b;
    assert Sane(s[x]) && Sane(s[y]) && Abuts(s, y);
    if x < y {
      SeparatedBefore(s, x, y);
    } else {
      NextIsHead(s, y);
      assert Sane(s[y + 1]);
      SeparatedBefore(s, y + 1, x);
    }
  }
}
