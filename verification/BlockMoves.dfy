/** memcpy and memset: odd bytes first, then 16 bytes at a time, with aligned moves where the addresses allow them. */
module BlockMoves {
  import opened Machine
  import opened Lists

  const BLOCK: int := 16

  /** Memory with the bytes from d on replaced by `bytes`. */
  function Splice<T>(m: seq<T>, d: nat, bytes: seq<T>): (r: seq<T>)
    requires d + |bytes| <= |m|
    ensures |r| == |m|
  {
    m[..d] + bytes + m[d + |bytes|..]
  }

  lemma SpliceAt<T>(m: seq<T>, d: nat, bytes: seq<T>, a: nat)
    requires d + |bytes| <= |m| && a < |m|
    ensures Splice(m, d, bytes)[a] == if d <= a < d + |bytes| then bytes[a - d] else m[a]
  {
  }

  /** The k bytes from s on copied to d, all of them read before any is written. */
  function Move<T>(m: seq<T>, d: nat, s: nat, k: nat): (r: seq<T>)
    requires d + k <= |m| && s + k <= |m|
    ensures |r| == |m|
  {
    Splice(m, d, m[s..s + k])
  }

  lemma MoveAt<T>(m: seq<T>, d: nat, s: nat, k: nat, a: nat)
    requires d + k <= |m| && s + k <= |m| && a < |m|
    ensures Move(m, d, s, k)[a] == if d <= a < d + k then m[s + (a - d)] else m[a]
  {
  }

  /** How many bytes the next move takes when n are left. */
  function Stride(n: nat): (k: nat)
    requires n > 0
    ensures 0 < k <= n
  {
    if n % BLOCK != 0 then 1 else BLOCK
  }

  /** Both pointers moving up, one move after the other: what memcpy does to memory, overlap or not. */
  function Forward<T>(m: seq<T>, d: nat, s: nat, n: nat): (r: seq<T>)
    requires d + n <= |m| && s + n <= |m|
    ensures |r| == |m|
    decreases n
  {
    if n == 0 then m else var k := Stride(n); Forward(Move(m, d, s, k), d + k, s + k, n - k)
  }

  lemma ForwardStep<T>(m: seq<T>, d: nat, s: nat, n: nat)
    requires d + n <= |m| && s + n <= |m| && n > 0
    ensures var k := Stride(n); Forward(m, d, s, n) == Forward(Move(m, d, s, k), d + k, s + k, n - k)
  {
    hide Move, Stride;
  }

  lemma ForwardNone<T>(m: seq<T>, d: nat, s: nat)
    requires d <= |m| && s <= |m|
    ensures Forward(m, d, s, 0) == m
  {
  }

  /** Only the destination changes. */
  lemma {:induction false} ForwardFrame<T>(m: seq<T>, d: nat, s: nat, n: nat, a: nat)
    requires d + n <= |m| && s + n <= |m| && a < |m| && !(d <= a < d + n)
    ensures Forward(m, d, s, n)[a] == m[a]
    decreases n
  {
    hide Forward, Move, Stride;
    if n > 0 {
      var k := Stride(n);
      ForwardStep(m, d, s, n);
      MoveAt(m, d, s, k, a);
      ForwardFrame(Move(m, d, s, k), d + k, s + k, n - k, a);
    } else {
      ForwardNone(m, d, s);
    }
  }

  /** Copying the first k bytes and then the rest of n copies all n, when no source byte is hit. */
  lemma MoveTwice<T>(m: seq<T>, d: nat, s: nat, n: nat, k: nat)
    requires d + n <= |m| && s + n <= |m| && k <= n && (d <= s || s + n <= d)
    ensures Move(Move(m, d, s, k), d + k, s + k, n - k) == Move(m, d, s, n)
  {
    hide Move;
    var m' := Move(m, d, s, k);
    var t, t' := Move(m', d + k, s + k, n - k), Move(m, d, s, n);
    forall a | 0 <= a < |m| ensures t[a] == t'[a] {
      MoveAt(m', d + k, s + k, n - k, a);
      MoveAt(m, d, s, n, a);
      MoveAt(m, d, s, k, a);
      if d + k <= a < d + n {
        MoveAt(m, d, s, k, s + (a - d));
      }
    }
  }

  lemma MoveNothing<T>(m: seq<T>, d: nat, s: nat)
    requires d <= |m| && s <= |m|
    ensures Move(m, d, s, 0) == m
  {
  }

  /** Without overlap, or with the destination below the source, the destination gets the source's original bytes. */
  lemma {:induction false} ForwardCopies<T>(m: seq<T>, d: nat, s: nat, n: nat)
    requires d + n <= |m| && s + n <= |m| && (d <= s || s + n <= d)
    ensures Forward(m, d, s, n) == Move(m, d, s, n)
    decreases n
  {
    hide Forward, Move, Stride;
    if n > 0 {
      var k := Stride(n);
      ForwardStep(m, d, s, n);
      ForwardCopies(Move(m, d, s, k), d + k, s + k, n - k);
      MoveTwice(m, d, s, n, k);
    } else {
      ForwardNone(m, d, s);
      MoveNothing(m, d, s);
    }
  }

  /** A source byte below the destination is still the original one when its turn comes. */
  lemma {:induction false} ForwardReadsBelow<T>(m: seq<T>, d: nat, s: nat, n: nat, j: nat)
    requires d + n <= |m| && s + n <= |m| && j < n && s + j < d
    ensures Forward(m, d, s, n)[d + j] == m[s + j]
    decreases n
  {
    hide Forward, Move, Stride;
    var k := Stride(n);
    ForwardStep(m, d, s, n);
    var m' := Move(m, d, s, k);
    MoveAt(m, d, s, k, s + j);
    if j < k {
      MoveAt(m, d, s, k, d + j);
      ForwardFrame(m', d + k, s + k, n - k, d + j);
    } else {
      ForwardReadsBelow(m', d + k, s + k, n - k, j - k);
    }
  }

  /** Ranges for which memcpy copies whatever memory holds. */
  predicate CopySafe(d: nat, s: nat, n: nat) {
    d <= s || s + n <= d || n == BLOCK
  }

  /**
   memcpy copies every content of memory exactly when the ranges are safe: a single block move reads all before it
   writes.
   */
  lemma CopyIff(size: nat, d: nat, s: nat, n: nat)
    requires d + n <= size && s + n <= size
    ensures (forall m: seq<Byte> :: |m| == size ==> Forward(m, d, s, n) == Move(m, d, s, n)) <==> CopySafe(d, s, n)
  {
    if CopySafe(d, s, n) {
      forall m: seq<Byte> | |m| == size ensures Forward(m, d, s, n) == Move(m, d, s, n) {
        SafeCopies(m, d, s, n);
      }
    } else {
      var m: seq<Byte> := OverlapClobbers(size, d, s, n, 0, 1);
      assert |m| == size;
    }
  }

  lemma SafeCopies<T>(m: seq<T>, d: nat, s: nat, n: nat)
    requires d + n <= |m| && s + n <= |m| && CopySafe(d, s, n)
    ensures Forward(m, d, s, n) == Move(m, d, s, n)
  {
    hide Move;
    if d <= s || s + n <= d {
      ForwardCopies(m, d, s, n);
    } else {
      assert Forward(m, d, s, n) == Forward(Move(m, d, s, BLOCK), d + BLOCK, s + BLOCK, 0);
    }
  }

  /** With the destination inside the source and more than one move, some byte is overwritten before it is read. */
  lemma OverlapClobbers<T>(size: nat, d: nat, s: nat, n: nat, x: T, y: T) returns (m: seq<T>)
    requires d + n <= size && s + n <= size && !CopySafe(d, s, n) && x != y
    ensures |m| == size && Forward(m, d, s, n) != Move(m, d, s, n)
  {
    var k := Stride(n);
    var gap := d - s;
    var p := if gap >= k then 0 else k - gap;
    assert p < k <= p + gap < n;
    hide Forward, Move, Stride, Repeat;
    m := Repeat(x, size)[s + p := y];
    SecondReadClobbered(m, d, s, n, k, p);
  }

  /** The first move puts byte p of the source where a later move reads. */
  lemma SecondReadClobbered<T>(m: seq<T>, d: nat, s: nat, n: nat, k: nat, p: nat)
    requires d + n <= |m| && s + n <= |m| && n > 0 && k == Stride(n) && p < k && s < d
    requires k <= p + (d - s) < n && m[s + p] != m[d + p]
    ensures Forward(m, d, s, n) != Move(m, d, s, n)
  {
    hide Forward, Move, Stride;
    var q := p + (d - s);
    MoveAt(m, d, s, k, d + p);
    ForwardStep(m, d, s, n);
    ForwardReadsBelow(Move(m, d, s, k), d + k, s + k, n - k, q - k);
    MoveAt(m, d, s, n, d + q);
  }

  // ----- The 128-bit register -----

  type Xmm = x: seq<Byte> | |x| == BLOCK witness Repeat(0, BLOCK)

  /** movd: 32 bits into the low lane, zero above. */
  function MovD(dword: seq<Byte>): Xmm
    requires |dword| == 4
  {
    dword + Repeat(0, 12)
  }

  /** unpcklps: the two low 32-bit lanes of both operands, interleaved. */
  function UnpackLowSingles(x: Xmm, y: Xmm): Xmm {
    x[..4] + y[..4] + x[4..8] + y[4..8]
  }

  /** unpcklpd: the low 64-bit lanes of both operands. */
  function UnpackLowDoubles(x: Xmm, y: Xmm): Xmm {
    x[..8] + y[..8]
  }

  // ----- The routines -----

  class Ram {
    const bytes: array<Byte>

    constructor (size: nat)
      ensures fresh(bytes) && bytes.Length == size
    {
      bytes := new Byte[size];
    }

    /** movdqu. */
    method LoadUnaligned(address: nat) returns (x: Xmm)
      requires address + BLOCK <= bytes.Length
      ensures x == bytes[address..address + BLOCK]
    {
      x := bytes[address..address + BLOCK];
    }

    /** movdqa: faults unless the address is a multiple of 16. */
    method LoadAligned(address: nat) returns (x: Xmm)
      requires address % BLOCK == 0 && address + BLOCK <= bytes.Length
      ensures x == bytes[address..address + BLOCK]
    {
      x := bytes[address..address + BLOCK];
    }

    method StoreUnaligned(address: nat, x: Xmm)
      requires address + BLOCK <= bytes.Length
      modifies bytes
      ensures bytes[..] == Splice(old(bytes[..]), address, x)
    {
      forall i | 0 <= i < BLOCK {
        bytes[address + i] := x[i];
      }
    }

    /** movdqa: faults unless the address is a multiple of 16. */
    method StoreAligned(address: nat, x: Xmm)
      requires address % BLOCK == 0 && address + BLOCK <= bytes.Length
      modifies bytes
      ensures bytes[..] == Splice(old(bytes[..]), address, x)
    {
      forall i | 0 <= i < BLOCK {
        bytes[address + i] := x[i];
      }
    }

    method MoveByte(dest: nat, src: nat)
      requires dest < bytes.Length && src < bytes.Length
      modifies bytes
      ensures bytes[..] == Move(old(bytes[..]), dest, src, 1)
    {
      bytes[dest] := bytes[src];
    }

    /** One turn of the loop the alignment of both addresses selects. */
    method MoveBlock(dest: nat, src: nat, destAligned: bool, srcAligned: bool)
      requires dest + BLOCK <= bytes.Length && src + BLOCK <= bytes.Length
      requires destAligned ==> dest % BLOCK == 0
      requires srcAligned ==> src % BLOCK == 0
      modifies bytes
      ensures bytes[..] == Move(old(bytes[..]), dest, src, BLOCK)
    {
      hide Splice;
      var xmm0: Xmm;
      if srcAligned {
        xmm0 := LoadAligned(src);
      } else {
        xmm0 := LoadUnaligned(src);
      }
      assert xmm0 == bytes[..][src..src + BLOCK];
      if destAligned {
        StoreAligned(dest, xmm0);
      } else {
        StoreUnaligned(dest, xmm0);
      }
    }

    method MemCpy(dest: nat, src: nat, count: nat)
      requires dest + count <= bytes.Length && src + count <= bytes.Length
      modifies bytes
      ensures bytes[..] == Forward(old(bytes[..]), dest, src, count)
      ensures CopySafe(dest, src, count) ==> bytes[..] == Move(old(bytes[..]), dest, src, count)
    {
      hide Move, Stride;
      ghost var m := bytes[..];
      var rdi, rsi, odd := dest, src, count % BLOCK;
      var left := count - odd;
      while odd != 0
        invariant left % BLOCK == 0 && 0 <= odd < BLOCK
        invariant rdi + left + odd == dest + count && rsi + left + odd == src + count
        invariant Forward(bytes[..], rdi, rsi, left + odd) == Forward(m, dest, src, count)
        decreases odd
      {
        OddStride(left, odd);
        ForwardStep(bytes[..], rdi, rsi, left + odd);
        MoveByte(rdi, rsi);
        rdi, rsi, odd := rdi + 1, rsi + 1, odd - 1;
        assert left + odd + 1 - 1 == left + odd;
      }
      var destAligned, srcAligned := rdi % BLOCK == 0, rsi % BLOCK == 0;
      while left != 0
        invariant left >= 0 && left % BLOCK == 0 && rdi + left == dest + count && rsi + left == src + count
        invariant destAligned ==> rdi % BLOCK == 0
        invariant srcAligned ==> rsi % BLOCK == 0
        invariant Forward(bytes[..], rdi, rsi, left) == Forward(m, dest, src, count)
        decreases left
      {
        ForwardStep(bytes[..], rdi, rsi, left);
        BlockFewer(left);
        BlockOn(rdi);
        BlockOn(rsi);
        MoveBlock(rdi, rsi, destAligned, srcAligned);
        rdi, rsi, left := rdi + BLOCK, rsi + BLOCK, left - BLOCK;
      }
      if CopySafe(dest, src, count) {
        SafeCopies(m, dest, src, count);
      }
    }

    method MemSet(dest: nat, value: Byte, count: nat)
      requires dest + count <= bytes.Length
      modifies bytes
      ensures bytes[..] == Splice(old(bytes[..]), dest, Repeat(value, count))
    {
      hide Splice, Repeat;
      ghost var m := bytes[..];
      var rdi, odd := dest, count % BLOCK;
      var left := count - odd;
      FillNothing(m, dest, value);
      while odd != 0
        invariant left % BLOCK == 0 && 0 <= odd && rdi + left + odd == dest + count && dest <= rdi
        invariant bytes[..] == Splice(m, dest, Repeat(value, rdi - dest))
        decreases odd
      {
        StoreByte(rdi, value);
        FillMore(m, dest, value, rdi - dest, 1);
        rdi, odd := rdi + 1, odd - 1;
      }
      var xmm0 := FilledRegister(value);
      var aligned := rdi % BLOCK == 0;
      while left != 0
        invariant left >= 0 && left % BLOCK == 0 && rdi + left == dest + count && dest <= rdi
        invariant aligned ==> rdi % BLOCK == 0
        invariant bytes[..] == Splice(m, dest, Repeat(value, rdi - dest))
        decreases left
      {
        if aligned {
          StoreAligned(rdi, xmm0);
        } else {
          StoreUnaligned(rdi, xmm0);
        }
        FillMore(m, dest, value, rdi - dest, BLOCK);
        BlockFewer(left);
        BlockOn(rdi);
        rdi, left := rdi + BLOCK, left - BLOCK;
      }
    }

    method StoreByte(dest: nat, value: Byte)
      requires dest < bytes.Length
      modifies bytes
      ensures bytes[..] == Splice(old(bytes[..]), dest, Repeat(value, 1))
    {
      bytes[dest] := value;
    }
  }

  /** Two shuffles of the low dword put the value in all 16 bytes. */
  method FilledRegister(value: Byte) returns (xmm0: Xmm)
    ensures xmm0 == Repeat(value, BLOCK)
  {
    var cx: seq<Byte> := [value, value];
    var ecx := cx + cx;
    xmm0 := MovD(ecx);
    xmm0 := UnpackLowSingles(xmm0, xmm0);
    xmm0 := UnpackLowDoubles(xmm0, xmm0);
  }

  lemma OddStride(left: nat, odd: nat)
    requires left % BLOCK == 0 && 0 < odd < BLOCK
    ensures Stride(left + odd) == 1
  {
  }

  lemma BlockFewer(left: nat)
    requires left != 0 && left % BLOCK == 0
    ensures left >= BLOCK && (left - BLOCK) % BLOCK == 0 && Stride(left) == BLOCK
  {
  }

  lemma BlockOn(a: nat)
    ensures (a + BLOCK) % BLOCK == a % BLOCK
  {
  }

  lemma FillNothing<T>(m: seq<T>, d: nat, v: T)
    requires d <= |m|
    ensures Splice(m, d, Repeat(v, 0)) == m
  {
  }

  /** Filling k bytes after the first n fills n + k. */
  lemma FillMore<T>(m: seq<T>, d: nat, v: T, n: nat, k: nat)
    requires d + n + k <= |m|
    ensures Splice(Splice(m, d, Repeat(v, n)), d + n, Repeat(v, k)) == Splice(m, d, Repeat(v, n + k))
  {
    hide Splice, Repeat;
    var m' := Splice(m, d, Repeat(v, n));
    var t, t' := Splice(m', d + n, Repeat(v, k)), Splice(m, d, Repeat(v, n + k));
    forall a | 0 <= a < |m| ensures t[a] == t'[a] {
      SpliceAt(m', d + n, Repeat(v, k), a);
      SpliceAt(m, d, Repeat(v, n), a);
      SpliceAt(m, d, Repeat(v, n + k), a);
    }
  }
}
