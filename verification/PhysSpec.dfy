/**
 The physical memory manager as a mathematical list.

 Usable RAM is a list of blocks in address order.  Each block is a 48-byte in-band header, the payload
 that follows it and the free gap that follows the payload.  `limit` (the end of the E820 region the
 block lies in) and `kind` are not stored by the kernel; they say what a block is for.
 */
module PhysSpec {
  import opened Machine

  const HEADER: int := 48
  const GRAIN: int := 16

  /** A region head (zero-sized, made by prep_mem), the kernel image, or an object handed out by phys_alloc. */
  datatype Kind = Head | Kernel | Object

  datatype Block = Block(addr: int, size: int, free: int, limit: int, kind: Kind) {
    /** First byte of the payload: the pointer phys_alloc returns. */
    function Payload(): int { addr + HEADER }

    /** First byte of the gap after the payload. */
    function GapStart(): int { addr + HEADER + size }

    /** First byte after the gap. */
    function End(): int { addr + HEADER + size + free }

    /** What the block occupies, without the gap that follows it. */
    function Erased(): Block { this.(free := 0) }
  }

  /** Field values are in range; a region head owns no payload. */
  predicate Sane(b: Block) {
    0 < b.addr && 0 <= b.size && 0 <= b.free && b.limit <= TWO_TO_64 && (b.kind.Head? ==> b.size == 0)
  }

  /** Does block i end where the next block of its region starts, or at the end of its region? */
  predicate Abuts(s: seq<Block>, i: nat)
    requires i < |s|
  {
    if i + 1 < |s| && !s[i + 1].kind.Head? then
      s[i].End() == s[i + 1].addr && s[i].limit == s[i + 1].limit
    else
      s[i].End() == s[i].limit && (i + 1 < |s| ==> s[i].limit <= s[i + 1].addr)
  }

  /** The tiling invariant: header, payload and gap of successive blocks cover each region exactly. */
  ghost predicate Tiled(s: seq<Block>) {
    && (forall i :: 0 <= i < |s| ==> Sane(s[i]))
    && (|s| > 0 ==> s[0].kind.Head?)
    && (forall i :: 0 <= i < |s| ==> Abuts(s, i))
  }

  ghost predicate Ascending(s: seq<Block>) {
    forall i, j :: 0 <= i < j < |s| ==> s[i].addr < s[j].addr
  }

  lemma {:induction false} SeparatedBefore(s: seq<Block>, i: nat, j: nat)
    requires Tiled(s) && i < j < |s|
    ensures s[i].End() <= s[j].addr
    ensures s[i].addr < s[j].addr
    decreases j - i
  {
    assert Abuts(s, i);
    if i + 1 < j {
      SeparatedBefore(s, i + 1, j);
    }
  }

  lemma TiledAscends(s: seq<Block>)
    requires Tiled(s)
    ensures Ascending(s)
  {
    forall i, j | 0 <= i < j < |s| ensures s[i].addr < s[j].addr {
      SeparatedBefore(s, i, j);
    }
  }

  lemma EndsWithinLimit(s: seq<Block>, i: nat)
    requires Tiled(s) && i < |s|
    ensures s[i].End() <= s[i].limit <= TWO_TO_64
    decreases |s| - i
  {
    assert Abuts(s, i);
    if i + 1 < |s| && !s[i + 1].kind.Head? {
      EndsWithinLimit(s, i + 1);
    }
  }

  // ----- Splitting and merging -----

  /** The list after `need` bytes (header included) are cut from the start of block i's gap, in 64-bit arithmetic. */
  function Carve(s: seq<Block>, i: nat, need: U64, kind: Kind): seq<Block>
    requires i < |s| && 0 <= s[i].free < TWO_TO_64
  {
    s[..i]
    + [s[i].(free := 0), Block(s[i].GapStart(), Sub64(need, HEADER), Sub64(s[i].free, need), s[i].limit, kind)]
    + s[i + 1..]
  }

  /** The list after block i is given back to the gap of its predecessor. */
  function Merge(s: seq<Block>, i: nat): seq<Block>
    requires 0 < i < |s|
  {
    s[..i - 1] + [s[i - 1].(free := s[i - 1].free + s[i].size + HEADER + s[i].free)] + s[i + 1..]
  }

  /** Cutting a block keeps the tiling exactly when the cut holds a header and fits the gap; the code checks neither. */
  lemma CarveTilesIff(s: seq<Block>, i: nat, need: U64, kind: Kind)
    requires Tiled(s) && i < |s| && s[i].free < TWO_TO_64 && !kind.Head?
    ensures Tiled(Carve(s, i, need, kind)) <==> HEADER <= need <= s[i].free
  {
    var t := Carve(s, i, need, kind);
    EndsWithinLimit(s, i);
    assert Abuts(s, i);
    assert forall k :: i + 2 <= k < |t| ==> t[k] == s[k - 1];
    if HEADER <= need <= s[i].free {
      forall k | 0 <= k < |t| ensures Sane(t[k]) && Abuts(t, k) {
        if k > i + 1 {
          assert Abuts(s, k - 1);
        } else if k < i {
          assert Abuts(s, k);
        }
      }
    } else {
      assert t[i + 1].End() >= s[i].End() + TWO_TO_64;
      if Tiled(t) {
        EndsWithinLimit(t, i + 1);
        assert false;
      }
    }
  }

  lemma MergeTiles(s: seq<Block>, i: nat)
    requires Tiled(s) && 0 < i < |s| && !s[i].kind.Head?
    ensures Tiled(Merge(s, i))
  {
    var t := Merge(s, i);
    assert Abuts(s, i - 1) && Abuts(s, i);
    forall k | 0 <= k < |t| ensures Sane(t[k]) && Abuts(t, k) {
      if k >= i {
        assert t[k] == s[k + 1];
        assert Abuts(s, k + 1);
      } else if k < i - 1 {
        assert Abuts(s, k);
      }
    }
  }

  // ----- Requests -----

  /** Bytes taken for a request: raised to 16, rounded up to a multiple of 16, plus a header; all in 64 bits. */
  function Need(size: U64): U64 {
    var raised: U64 := if size < GRAIN then GRAIN else size;
    var rounded: U64 := if raised % GRAIN != 0 then Add64(raised, GRAIN - raised % GRAIN) else raised;
    Add64(rounded, HEADER)
  }

  /** The bytes taken cover header and request exactly when the request leaves room for both under 2^64. */
  lemma NeedCoversIff(size: U64)
    ensures Need(size) >= HEADER + size <==> size <= TWO_TO_64 - 64
    ensures size <= TWO_TO_64 - 64 ==> Need(size) % GRAIN == 0 && HEADER + GRAIN <= Need(size)
    ensures GRAIN <= size <= TWO_TO_64 - 64 ==> Need(size) < HEADER + size + GRAIN
  {
    var raised := if size < GRAIN then GRAIN else size;
    var up := if raised % GRAIN == 0 then raised else raised + (GRAIN - raised % GRAIN);
    assert up % GRAIN == 0;
    assert TWO_TO_64 % GRAIN == 0;
    if size <= TWO_TO_64 - 64 {
      assert up <= TWO_TO_64 - 64;
    }
  }

  /**
   No fewer bytes would do: what lies behind the header is the smallest multiple of 16 that is at least 16 and the
   request.
   */
  lemma NeedIsLeast(size: U64, m: int)
    requires size <= TWO_TO_64 - 64
    ensures Need(size) % 16 == 0 && Need(size) - 48 >= 16 && Need(size) - 48 >= size
    ensures m % 16 == 0 && m >= 16 && m >= size ==> Need(size) <= m + 48
    ensures size < 16 ==> Need(size) == 64
  {
    NeedCoversIff(size);
  }

  /** A request that wraps: the largest u64 is served with a bare header and no payload at all. */
  lemma LargestRequestWraps()
    ensures Need(TWO_TO_64 - 1) == HEADER
  {
    assert (TWO_TO_64 - 1) % GRAIN == 15;
  }

  /** The block the best-fit scan has selected after looking at the first n blocks, or -1. */
  function BestFitUpto(s: seq<Block>, n: nat, need: int): (best: int)
    requires n <= |s|
    ensures -1 <= best < n
    ensures best == -1 ==> forall j :: 0 <= j < n ==> s[j].free < need
    ensures best >= 0 ==> s[best].free >= need
    ensures best >= 0 ==> forall j :: 0 <= j < n && s[j].free >= need ==> s[best].free <= s[j].free
    ensures best >= 0 ==> forall j :: 0 <= j < best && s[j].free >= need ==> s[best].free < s[j].free
  {
    if n == 0 then -1
    else
      var best := BestFitUpto(s, n - 1, need);
      if s[n - 1].free >= need && (best == -1 || s[n - 1].free < s[best].free) then n - 1 else best
  }

  function BestFit(s: seq<Block>, need: int): (best: int)
    ensures -1 <= best < |s|
  {
    BestFitUpto(s, |s|, need)
  }

  /** Position of the block whose header is at addr, or -1. */
  function IndexOf(s: seq<Block>, addr: int): (i: int)
    ensures -1 <= i < |s|
    ensures i >= 0 ==> s[i].addr == addr
    ensures i == -1 ==> forall j :: 0 <= j < |s| ==> s[j].addr != addr
  {
    if s == [] then -1
    else if s[|s| - 1].addr == addr then |s| - 1
    else IndexOf(s[..|s| - 1], addr)
  }

  lemma IndexOfUnique(s: seq<Block>, i: nat)
    requires Ascending(s) && i < |s|
    ensures IndexOf(s, s[i].addr) == i
  {
  }

  // ----- Operations and runs -----

  datatype Op = Alloc(size: U64) | Free(ptr: int)

  /** Does ptr point at the payload of an object? */
  predicate IsLive(s: seq<Block>, ptr: int) {
    var i := IndexOf(s, ptr - HEADER);
    i >= 0 && s[i].kind.Object?
  }

  /** What callers may ask: requests that do not wrap, and frees of live pointers only. */
  predicate Legal(s: seq<Block>, op: Op) {
    match op
    case Alloc(size) => size <= TWO_TO_64 - 64
    case Free(ptr) => IsLive(s, ptr)
  }

  function AllocStep(s: seq<Block>, size: U64): (seq<Block>, int)
    requires Tiled(s)
  {
    var i := BestFit(s, Need(size));
    if i < 0 then (s, NULL)
    else
      assert s[i].free < TWO_TO_64 by { EndsWithinLimit(s, i); }
      (Carve(s, i, Need(size), Object), s[i].GapStart() + HEADER)
  }

  function FreeStep(s: seq<Block>, ptr: int): seq<Block>
    requires Tiled(s) && IsLive(s, ptr)
  {
    Merge(s, IndexOf(s, ptr - HEADER))
  }

  function Step(s: seq<Block>, op: Op): (t: seq<Block>)
    requires Tiled(s) && Legal(s, op)
    ensures Tiled(t)
  {
    match op
    case Alloc(size) =>
      AllocTiles(s, size);
      AllocStep(s, size).0
    case Free(ptr) =>
      FreeTiles(s, ptr);
      FreeStep(s, ptr)
  }

  lemma AllocTiles(s: seq<Block>, size: U64)
    requires Tiled(s) && size <= TWO_TO_64 - 64
    ensures Tiled(AllocStep(s, size).0)
  {
    var i := BestFit(s, Need(size));
    NeedCoversIff(size);
    if i >= 0 {
      EndsWithinLimit(s, i);
      CarveTilesIff(s, i, Need(size), Object);
    }
  }

  lemma FreeTiles(s: seq<Block>, ptr: int)
    requires Tiled(s) && IsLive(s, ptr)
    ensures 0 < IndexOf(s, ptr - HEADER) < |s|
    ensures Tiled(FreeStep(s, ptr))
  {
    MergeTiles(s, IndexOf(s, ptr - HEADER));
  }

  /** Is every operation of the run legal in the state it meets? */
  ghost predicate LegalRun(s: seq<Block>, ops: seq<Op>)
    requires Tiled(s)
    decreases |ops|
  {
    ops == [] || (Legal(s, ops[0]) && LegalRun(Step(s, ops[0]), ops[1..]))
  }

  ghost function Run(s: seq<Block>, ops: seq<Op>): (t: seq<Block>)
    requires Tiled(s) && LegalRun(s, ops)
    ensures Tiled(t)
    decreases |ops|
  {
    if ops == [] then s else Run(Step(s, ops[0]), ops[1..])
  }
}
