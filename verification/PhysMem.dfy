/** The physical memory manager as the kernel runs it: headers in RAM, linked and relinked through their addresses. */
module PhysMem {
  import opened Machine
  import opened PhysSpec

  const LEAD_SIG: int := 0x5EA90516AABBCC01
  const TRAIL_SIG: int := 0x5EA90516AABBCC02
  const MMAP_END: int := 0x55AA
  const HIGH_MEMORY: int := 0x100000

  /** struct phys_mem_block; `next` and `prev` are addresses. */
  datatype Header = Header(leadSig: int, next: int, prev: int, size: U64, free: U64, trailSig: int) {
    /** _check_phys_block panics unless both signatures are in place. */
    predicate Intact() {
      leadSig == LEAD_SIG && trailSig == TRAIL_SIG
    }
  }

  /** One entry of the E820 memory map (ACPI Specification 6.x, section 15.1). */
  datatype Entry = Entry(address: U64, length: U64, kind: int) {
    /** Bytes skipped to reach a 16-byte boundary. */
    function Skip(): int {
      if address % GRAIN != 0 then GRAIN - address % GRAIN else 0
    }

    /** Does prep_mem put a region head on this entry? */
    predicate Qualifies() {
      kind == 1 && address >= HIGH_MEMORY && length > HEADER + Skip()
    }

    /** The region head that covers the entry from its first aligned byte to its last byte. */
    function Region(): Block {
      Block(address + Skip(), 0, length - HEADER - Skip(), address + length, Head)
    }
  }

  /** The part of the map before its end mark. */
  function Entries(mmap: seq<Entry>): (es: seq<Entry>)
    ensures es <= mmap
    ensures forall e :: e in es ==> e.address != MMAP_END
    ensures |es| < |mmap| ==> mmap[|es|].address == MMAP_END
  {
    if mmap == [] || mmap[0].address == MMAP_END then [] else [mmap[0]] + Entries(mmap[1..])
  }

  /** Usable entries lie below 2^64 and do not overlap. */
  ghost predicate Disjoint(es: seq<Entry>) {
    && (forall i :: 0 <= i < |es| && es[i].Qualifies() ==> es[i].address + es[i].length <= TWO_TO_64)
    && (forall i, j :: 0 <= i < j < |es| && es[i].Qualifies() && es[j].Qualifies() ==>
         es[i].address + es[i].length <= es[j].address || es[j].address + es[j].length <= es[i].address)
  }

  /** The heads prep_mem must make for the first n entries, in no particular order. */
  ghost function Regions(es: seq<Entry>, n: nat): set<Block>
    requires n <= |es|
  {
    set i | 0 <= i < n && es[i].Qualifies() :: es[i].Region()
  }

  ghost function Members(s: seq<Block>): set<Block> {
    set i | 0 <= i < |s| :: s[i]
  }

  /** Is s the address-ordered list of exactly the regions of the qualifying ones among the first n entries? */
  ghost predicate SortedRegions(s: seq<Block>, es: seq<Entry>, n: nat)
    requires n <= |es|
  {
    Tiled(s) && AllHeads(s) && Members(s) == Regions(es, n)
  }

  ghost predicate AllHeads(s: seq<Block>) {
    forall i :: 0 <= i < |s| ==> s[i].kind.Head?
  }

  /** The kernel's size must hold a header and fit the gap of the region the kernel was loaded into. */
  ghost predicate KernelFits(es: seq<Entry>, kernel: int, kernelSize: U64) {
    forall i :: 0 <= i < |es| && es[i].Qualifies() && es[i].Region().addr + 2 * HEADER == kernel ==>
      HEADER <= kernelSize <= es[i].Region().free
  }

  function InsertAt(s: seq<Block>, j: nat, b: Block): seq<Block>
    requires j <= |s|
  {
    s[..j] + [b] + s[j..]
  }

  lemma InsertTiles(s: seq<Block>, j: nat, b: Block)
    requires Tiled(s) && AllHeads(s) && j <= |s|
    requires Sane(b) && b.kind.Head? && b.End() == b.limit
    requires (j > 0 ==> s[j - 1].limit <= b.addr) && (j < |s| ==> b.limit <= s[j].addr)
    ensures Tiled(InsertAt(s, j, b)) && AllHeads(InsertAt(s, j, b))
  {
    var t := InsertAt(s, j, b);
    forall i | 0 <= i < |t| ensures Sane(t[i]) && t[i].kind.Head? && Abuts(t, i) {
      if i < j {
        assert t[i] == s[i] && Abuts(s, i);
      } else if i > j {
        assert t[i] == s[i - 1] && Abuts(s, i - 1);
        assert i + 1 < |t| ==> t[i + 1] == s[i];
      }
    }
  }

  lemma InsertMembers(s: seq<Block>, j: nat, b: Block)
    requires j <= |s|
    ensures Members(InsertAt(s, j, b)) == Members(s) + {b}
  {
    var t := InsertAt(s, j, b);
    assert t[j] == b;
    forall i | 0 <= i < |s| ensures s[i] in Members(t) {
      assert t[if i < j then i else i + 1] == s[i];
    }
  }

  /** The region of a further qualifying entry lies wholly before or wholly after every region listed so far. */
  lemma RegionClear(s: seq<Block>, es: seq<Entry>, k: nat, i: nat)
    requires k < |es| && Disjoint(es) && es[k].Qualifies() && SortedRegions(s, es, k) && i < |s|
    ensures var b := es[k].Region();
      && s[i].addr != b.addr
      && if s[i].addr < b.addr then s[i].limit <= b.addr else b.limit <= s[i].addr
  {
    assert s[i] in Regions(es, k);
    var m :| 0 <= m < k && es[m].Qualifies() && es[m].Region() == s[i];
    assert es[m].address + es[m].length <= es[k].address || es[k].address + es[k].length <= es[m].address;
  }

  lemma InsertRegion(s: seq<Block>, es: seq<Entry>, k: nat, j: nat)
    requires k < |es| && Disjoint(es) && es[k].Qualifies() && SortedRegions(s, es, k) && j <= |s|
    requires j > 0 ==> s[j - 1].addr < es[k].Region().addr
    requires j < |s| ==> es[k].Region().addr <= s[j].addr
    ensures SortedRegions(InsertAt(s, j, es[k].Region()), es, k + 1)
  {
    if j > 0 {
      RegionClear(s, es, k, j - 1);
    }
    if j < |s| {
      RegionClear(s, es, k, j);
    }
    InsertTiles(s, j, es[k].Region());
    InsertMembers(s, j, es[k].Region());
    assert Regions(es, k + 1) == Regions(es, k) + {es[k].Region()};
  }

  lemma SkipEntry(s: seq<Block>, es: seq<Entry>, k: nat)
    requires k < |es| && !es[k].Qualifies() && SortedRegions(s, es, k)
    ensures SortedRegions(s, es, k + 1)
  {
    assert Regions(es, k + 1) == Regions(es, k);
  }

  function NextAddr(s: seq<Block>, i: nat): int
    requires i < |s|
  {
    if i + 1 < |s| then s[i + 1].addr else NULL
  }

  /** Do the header fields at block i's address say what the list says?  A region head's `prev` may be stale. */
  predicate Holds(hdr: map<int, Header>, s: seq<Block>, i: nat)
    requires i < |s|
  {
    s[i].addr in hdr &&
    var h := hdr[s[i].addr];
    && h.Intact()
    && h.size == s[i].size && h.free == s[i].free
    && h.next == NextAddr(s, i)
    && (!s[i].kind.Head? && i > 0 ==> h.prev == s[i - 1].addr)
  }

  ghost predicate Linked(hdr: map<int, Header>, first: int, final: int, s: seq<Block>) {
    && first == (if s == [] then NULL else s[0].addr)
    && final == (if s == [] then NULL else s[|s| - 1].addr)
    && (forall i :: 0 <= i < |s| ==> Holds(hdr, s, i))
  }

  /** Relinking around a block that is cut in: only the selected block, the new one and the one after change. */
  lemma CarveLinks(h: map<int, Header>, h': map<int, Header>, s: seq<Block>, i: nat, need: U64, kind: Kind)
    requires Tiled(s) && i < |s| && HEADER <= need <= s[i].free < TWO_TO_64 && !kind.Head?
    requires forall k :: 0 <= k < |s| ==> Holds(h, s, k)
    requires var t := Carve(s, i, need, kind);
      && t[i + 1].addr in h'
      && h'[t[i + 1].addr] == Header(LEAD_SIG, NextAddr(s, i), s[i].addr, t[i + 1].size, t[i + 1].free, TRAIL_SIG)
      && Holds(h, s, i) && s[i].addr in h' && h'[s[i].addr] == h[s[i].addr].(next := t[i + 1].addr, free := 0)
      && (i + 1 < |s| ==>
           && Holds(h, s, i + 1) && s[i + 1].addr in h'
           && h'[s[i + 1].addr] == h[s[i + 1].addr].(prev := t[i + 1].addr))
      && (forall k :: 0 <= k < |s| && k != i && k != i + 1 ==>
           s[k].addr in h && s[k].addr in h' && h'[s[k].addr] == h[s[k].addr])
    ensures var t := Carve(s, i, need, kind);
      Linked(h', s[0].addr, if i == |s| - 1 then t[i + 1].addr else s[|s| - 1].addr, t)
  {
    var t := Carve(s, i, need, kind);
    forall k | 0 <= k < |t| ensures Holds(h', t, k) {
      if k <= i {
        assert Holds(h, s, k);
      } else if k > i + 1 {
        assert Holds(h, s, k - 1);
        assert t[k] == s[k - 1];
        assert k + 1 < |t| ==> t[k + 1] == s[k];
      }
    }
  }

  lemma NewAddressUnused(s: seq<Block>, i: nat)
    requires Tiled(s) && i < |s| && 0 < s[i].free
    ensures forall k :: 0 <= k < |s| ==> s[k].addr != s[i].GapStart()
  {
    forall k | 0 <= k < |s| ensures s[k].addr != s[i].GapStart() {
      if k < i {
        SeparatedBefore(s, k, i);
      } else if i < k {
        SeparatedBefore(s, i, k);
      }
    }
  }

  /** Relinking around a block that is given back: only its two neighbours change. */
  lemma MergeLinks(h: map<int, Header>, h': map<int, Header>, s: seq<Block>, i: nat)
    requires 0 < i < |s| && 0 <= s[i - 1].free + s[i].size + HEADER + s[i].free < TWO_TO_64
    requires forall k :: 0 <= k < |s| ==> Holds(h, s, k)
    requires
      && Holds(h, s, i - 1) && s[i - 1].addr in h'
      && h'[s[i - 1].addr] == h[s[i - 1].addr].(
           next := NextAddr(s, i), free := s[i - 1].free + s[i].size + HEADER + s[i].free)
      && (i + 1 < |s| ==>
           && Holds(h, s, i + 1) && s[i + 1].addr in h'
           && h'[s[i + 1].addr] == h[s[i + 1].addr].(prev := s[i - 1].addr))
      && (forall k :: 0 <= k < |s| && k != i - 1 && k != i && k != i + 1 ==>
           s[k].addr in h && s[k].addr in h' && h'[s[k].addr] == h[s[k].addr])
    ensures Linked(h', s[0].addr, if i == |s| - 1 then s[i - 1].addr else s[|s| - 1].addr, Merge(s, i))
  {
    var t := Merge(s, i);
    forall k | 0 <= k < |t| ensures Holds(h', t, k) {
      if k < i {
        assert Holds(h, s, k);
      } else {
        assert Holds(h, s, k + 1);
        assert t[k] == s[k + 1];
        assert k + 1 < |t| ==> t[k + 1] == s[k + 2];
      }
    }
  }

  /** Relinking around a new region head: it and the block before it change; the block after keeps its `prev`. */
  lemma InsertLinks(h: map<int, Header>, h': map<int, Header>, s: seq<Block>, j: nat, b: Block)
    requires j <= |s| && b.kind.Head? && 0 <= b.size < TWO_TO_64 && 0 <= b.free < TWO_TO_64
    requires AllHeads(s) && forall k :: 0 <= k < |s| ==> Holds(h, s, k)
    requires
      && b.addr in h' && h'[b.addr].Intact() && h'[b.addr].size == b.size && h'[b.addr].free == b.free
      && h'[b.addr].next == if j < |s| then s[j].addr else NULL
    requires j > 0 ==>
      && Holds(h, s, j - 1) && s[j - 1].addr in h'
      && h'[s[j - 1].addr] == h[s[j - 1].addr].(next := b.addr)
    requires forall k :: 0 <= k < |s| && k != j - 1 ==>
      s[k].addr in h && s[k].addr in h' && h'[s[k].addr] == h[s[k].addr]
    ensures var first, final := if j == 0 then b.addr else s[0].addr, if j == |s| then b.addr else s[|s| - 1].addr;
      Linked(h', first, final, InsertAt(s, j, b))
  {
    var t := InsertAt(s, j, b);
    forall k | 0 <= k < |t| ensures Holds(h', t, k) {
      if k < j {
        assert t[k] == s[k] && Holds(h, s, k);
      } else if k > j {
        assert t[k] == s[k - 1] && Holds(h, s, k - 1);
        assert k + 1 < |t| ==> t[k + 1] == s[k];
      }
    }
  }

  lemma FirstIsNullIff(s: seq<Block>)
    requires Tiled(s)
    ensures s != [] ==> s[0].addr != NULL
    ensures forall i :: 0 <= i < |s| ==> s[i].addr != NULL
  {
    assert forall i :: 0 <= i < |s| ==> Sane(s[i]);
  }

  class PhysicalMemory {
    var hdr: map<int, Header>   // RAM, read and written through header pointers
    var first: int              // phys_first_block
    var final: int              // phys_final_block
    ghost var blocks: seq<Block>

    ghost predicate Valid()
      reads this
    {
      Tiled(blocks) && Linked(hdr, first, final, blocks)
    }

    constructor ()
      ensures Valid() && blocks == []
    {
      hdr, first, final, blocks := map[], NULL, NULL, [];
    }

    /** _make_new_block: cuts `size` bytes, header included, from the start of a block's gap. */
    method MakeNewBlock(size: U64, selected: int, ghost i: nat, ghost kind: Kind) returns (newBlock: int)
      requires Valid() && i < |blocks| && selected == blocks[i].addr && !kind.Head?
      requires HEADER <= size <= blocks[i].free
      modifies this
      ensures Valid()
      ensures old(blocks[i].free) < TWO_TO_64 && blocks == Carve(old(blocks), i, size, kind)
      ensures newBlock == old(blocks)[i].GapStart()
    {
      ghost var s := blocks;
      EndsWithinLimit(s, i);
      TiledAscends(s);
      CarveTilesIff(s, i, size, kind);
      assert Holds(hdr, s, i);
      ghost var t := Carve(s, i, size, kind);
      NewAddressUnused(s, i);
      assert forall k :: 0 <= k < |s| ==> Holds(hdr, s, k);
      hide Tiled;

      newBlock := selected + hdr[selected].size + HEADER;
      assert newBlock == s[i].GapStart();
      hdr := hdr[newBlock := Header(LEAD_SIG, hdr[selected].next, selected, size - HEADER,
        hdr[selected].free - size, TRAIL_SIG)];
      forall k | 0 <= k < |s| ensures s[k].addr in hdr && hdr[s[k].addr] == old(hdr)[s[k].addr] {
        assert Holds(old(hdr), s, k);
      }
      assert selected == final <==> i == |s| - 1;
      if selected == final {
        final := newBlock;
      } else {
        assert i + 1 < |s|;
        assert Holds(old(hdr), s, i + 1);
        var next := hdr[newBlock].next;
        hdr := hdr[next := hdr[next].(prev := newBlock)];
      }
      hdr := hdr[selected := hdr[selected].(next := newBlock, free := 0)];
      blocks := t;

      forall k | 0 <= k < |s| && k != i && k != i + 1
        ensures s[k].addr in old(hdr) && s[k].addr in hdr && hdr[s[k].addr] == old(hdr)[s[k].addr]
      {
        assert Holds(old(hdr), s, k);
        assert s[k].addr != s[i].addr && (i + 1 < |s| ==> s[k].addr != s[i + 1].addr);
      }
      CarveLinks(old(hdr), hdr, s, i, size, kind);
    }

    /** Puts a head of zero size on a qualifying entry and links it in at its place by address. */
    method AddRegion(ghost es: seq<Entry>, ghost k: nat, entry: Entry)
      requires Valid() && k < |es| && entry == es[k] && entry.Qualifies() && Disjoint(es)
      requires SortedRegions(blocks, es, k)
      modifies this
      ensures Valid() && SortedRegions(blocks, es, k + 1)
    {
      ghost var s := blocks;
      TiledAscends(s);
      assert forall k :: 0 <= k < |s| ==> Holds(hdr, s, k);
      FirstIsNullIff(s);
      hide Tiled;
      ghost var b := entry.Region();
      ghost var j := 0;
      var block := entry.address + entry.Skip();
      var next, prev := NULL, NULL;
      if first == NULL {
        first, final := block, block;
      } else if block < first {
        next := first;
        first := block;
      } else {
        prev := first;
        j := 1;
        assert Holds(hdr, s, 0);
        while hdr[prev].next != NULL && hdr[prev].next < block
          invariant 0 < j <= |s| && prev == s[j - 1].addr && prev <= block && prev in hdr
          decreases |s| - j
        {
          assert Holds(hdr, s, j - 1);
          prev := hdr[prev].next;
          j := j + 1;
          assert Holds(hdr, s, j - 1);
        }
        assert Holds(hdr, s, j - 1);
        RegionClear(s, es, k, j - 1);
        assert prev == final <==> j == |s|;
        if prev == final {
          final := block;
        } else {
          next := hdr[prev].next;
        }
        hdr := hdr[prev := hdr[prev].(next := block)];
      }
      InsertRegion(s, es, k, j);
      hdr := hdr[block := Header(LEAD_SIG, next, prev, 0, entry.length - HEADER - entry.Skip(), TRAIL_SIG)];
      blocks := InsertAt(s, j, b);
      if j > 0 {
        RegionClear(s, es, k, j - 1);
      }
      forall m | 0 <= m < |s| && m != j - 1
        ensures s[m].addr in old(hdr) && s[m].addr in hdr && hdr[s[m].addr] == old(hdr)[s[m].addr]
      {
        assert Holds(old(hdr), s, m);
        RegionClear(s, es, k, m);
      }
      InsertLinks(old(hdr), hdr, s, j, b);
    }

    /** prep_mem: one head per usable region, then the kernel image reserved; not ok is its panic. */
    method PrepMem(mmap: seq<Entry>, kernel: int, kernelSize: U64) returns (ok: bool, ghost heads: seq<Block>)
      requires Valid() && blocks == []
      requires |Entries(mmap)| < |mmap| && Disjoint(Entries(mmap))
      requires KernelFits(Entries(mmap), kernel, kernelSize)
      modifies this
      ensures Valid() && SortedRegions(heads, Entries(mmap), |Entries(mmap)|)
      ensures ok <==> exists i :: 0 <= i < |heads| && heads[i].addr + 2 * HEADER == kernel
      ensures !ok ==> blocks == heads
      ensures ok ==> exists i ::
        && 0 <= i < |heads| && heads[i].addr + 2 * HEADER == kernel
        && heads[i].free < TWO_TO_64 && blocks == Carve(heads, i, kernelSize, Kernel)
    {
      ghost var es := Entries(mmap);
      var k := 0;
      assert SortedRegions(blocks, es, 0);
      while mmap[k].address != MMAP_END
        invariant Valid() && k <= |es| && SortedRegions(blocks, es, k)
        decreases |es| - k
      {
        assert k < |es| && mmap[k] == es[k];
        if mmap[k].Qualifies() {
          AddRegion(es, k, mmap[k]);
        } else {
          SkipEntry(blocks, es, k);
        }
        k := k + 1;
      }
      heads := blocks;
      var block := first;
      ghost var i := 0;
      while block != NULL && block + 2 * HEADER != kernel
        invariant i <= |heads| && block == if i < |heads| then heads[i].addr else NULL
        invariant forall j :: 0 <= j < i ==> heads[j].addr + 2 * HEADER != kernel
        decreases |heads| - i
      {
        assert Holds(hdr, heads, i);
        block := hdr[block].next;
        i := i + 1;
      }
      if block == NULL {
        return false, heads;
      }
      assert heads[i] in Regions(es, |es|);
      EndsWithinLimit(heads, i);
      var newBlock := MakeNewBlock(kernelSize, block, i, Kernel);
      ok := true;
    }

    /** The scan of phys_alloc: the first header among those with the smallest gap that fits; NULL when none does. */
    method SelectBlock(need: U64) returns (selected: int)
      requires Valid()
      ensures selected == if BestFit(blocks, need) < 0 then NULL else blocks[BestFit(blocks, need)].addr
      ensures selected == NULL <==> BestFit(blocks, need) < 0
    {
      FirstIsNullIff(blocks);
      hide Tiled;
      var block := first;
      selected := NULL;
      ghost var k := 0;
      while block != NULL
        invariant k <= |blocks| && block == if k < |blocks| then blocks[k].addr else NULL
        invariant selected == if BestFitUpto(blocks, k, need) < 0 then NULL
                              else blocks[BestFitUpto(blocks, k, need)].addr
        decreases |blocks| - k
      {
        assert Holds(hdr, blocks, k);
        assert BestFitUpto(blocks, k, need) >= 0 ==> Holds(hdr, blocks, BestFitUpto(blocks, k, need));
        if !hdr[block].Intact() {
          assert false;  // the panic of _check_phys_block
        }
        if hdr[block].free >= need && (selected == NULL || hdr[block].free < hdr[selected].free) {
          selected := block;
        }
        block := hdr[block].next;
        k := k + 1;
      }
    }

    /** phys_alloc: best fit over the whole list, lowest address among equals; NULL when nothing fits. */
    method Alloc(size: U64) returns (ptr: int)
      requires Valid() && size <= TWO_TO_64 - 64
      modifies this
      ensures Valid()
      ensures (blocks, ptr) == AllocStep(old(blocks), size)
    {
      NeedCoversIff(size);
      hide Need;
      var need := Need(size);
      var selected := SelectBlock(need);
      if selected == NULL {
        return NULL;
      }
      hide Linked, Tiled;
      var newBlock := MakeNewBlock(need, selected, BestFit(blocks, need), Object);
      ptr := newBlock + HEADER;
    }

    /** phys_free: gives a live block back to the gap of the block before it. */
    method Free(ptr: int)
      requires Valid() && IsLive(blocks, ptr)
      modifies this
      ensures Valid()
      ensures blocks == FreeStep(old(blocks), ptr)
    {
      ghost var s := blocks;
      ghost var i := IndexOf(s, ptr - HEADER);
      FreeTiles(s, ptr);
      TiledAscends(s);
      assert Holds(hdr, s, i) && Holds(hdr, s, i - 1);
      assert forall k :: 0 <= k < |s| ==> Holds(hdr, s, k);
      ghost var t := FreeStep(s, ptr);
      assert t == Merge(s, i);
      EndsWithinLimit(t, i - 1);
      hide Tiled, FreeStep, IndexOf, IsLive;

      var block := ptr - HEADER;
      assert block == final <==> i == |s| - 1;
      if !hdr[block].Intact() {
        assert false;  // the panic of _check_phys_block
      }
      var prev := hdr[block].prev;
      if block == final {
        final := prev;
      } else {
        assert Holds(hdr, s, i + 1);
        var next := hdr[block].next;
        hdr := hdr[next := hdr[next].(prev := prev)];
      }
      hdr := hdr[prev := hdr[prev].(next := hdr[block].next)];
      var more := Add64(Add64(hdr[block].size, HEADER), hdr[block].free);
      hdr := hdr[prev := hdr[prev].(free := Add64(hdr[prev].free, more))];
      blocks := t;

      forall k | 0 <= k < |s| && k != i - 1 && k != i && k != i + 1
        ensures s[k].addr in old(hdr) && s[k].addr in hdr && hdr[s[k].addr] == old(hdr)[s[k].addr]
      {
        assert Holds(old(hdr), s, k);
        assert s[k].addr != s[i - 1].addr && (i + 1 < |s| ==> s[k].addr != s[i + 1].addr);
      }
      MergeLinks(old(hdr), hdr, s, i);
    }
  }
}
