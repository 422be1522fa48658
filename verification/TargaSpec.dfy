/** Truevision TGA files as put_targa reads them, and the dots each of its decoders draws. */
module TargaSpec {
  import opened Machine
  import opened Lists
  import opened Drawing

  const U32: int := 0x1_0000_0000
  const HEADER_SIZE: int := 18

  function LittleEndian(bytes: seq<Byte>): (r: nat) {
    if bytes == [] then 0 else bytes[0] + 256 * LittleEndian(bytes[1..])
  }

  /** The bytes of memory from a on. */
  function Read(memory: nat -> Byte, a: nat, n: nat): (r: seq<Byte>)
    ensures |r| == n && forall i :: 0 <= i < n ==> r[i] == memory(a + i)
  {
    if n == 0 then [] else Read(memory, a, n - 1) + [memory(a + n - 1)]
  }

  /** A file loaded at an address of a memory that can be read anywhere. */
  datatype File = File(memory: nat -> Byte, start: nat) {
    function Word(a: nat): nat {
      memory(a) + 256 * memory(a + 1)
    }

    function DoubleWord(a: nat): nat {
      Word(a) + U16 * Word(a + 2)
    }

    function IdLength(): Byte { memory(start) }
    function MapType(): Byte { memory(start + 1) }
    function ImageType(): Byte { memory(start + 2) }
    function MapLength(): nat { Word(start + 5) }
    function MapEntrySize(): Byte { memory(start + 7) }
    function Width(): nat { Word(start + 12) }
    function Height(): nat { Word(start + 14) }
    function BitsPerPixel(): Byte { memory(start + 16) }
    function TopLeft(): bool { memory(start + 17) / 32 % 2 == 1 }

    predicate Mapped() { ImageType() == 1 || ImageType() == 9 }
    predicate Plain() { ImageType() == 1 || ImageType() == 2 }
    predicate RunLength() { ImageType() == 9 || ImageType() == 10 }

    /** Four image types, one byte per colour channel. */
    predicate Supported() {
      if Mapped() then MapType() != 0 && MapEntrySize() != 16 else (Plain() || RunLength()) && BitsPerPixel() != 16
    }

    function MapStart(): nat { start + HEADER_SIZE + IdLength() }

    function ImageStart(): nat {
      MapStart() + if Mapped() || MapType() != 0 then MapLength() * (MapEntrySize() / 8) else 0
    }

    /** Bytes per stored pixel: an index of one or two, or a colour of three or four. */
    function PixelSize(): (k: nat)
      ensures 1 <= k <= 4
    {
      if Mapped() then (if BitsPerPixel() == 8 then 1 else 2) else if BitsPerPixel() == 24 then 3 else 4
    }

    /** The colour a stored pixel stands for. */
    function Colour(v: nat): nat {
      if !Mapped() then v
      else if MapEntrySize() == 24 then LittleEndian(Read(memory, MapStart() + 3 * v, 3))
      else LittleEndian(Read(memory, MapStart() + 4 * v, 4))
    }

    function ColourAt(a: nat): nat {
      Colour(LittleEndian(Read(memory, a, PixelSize())))
    }
  }

  // ----- The plain decoder -----

  function Row(w: nat, n: nat): (r: nat)
    requires w > 0
  {
    n / w
  }

  function Column(w: nat, n: nat): (r: nat)
    requires w > 0
    ensures r < w
  {
    n % w
  }

  /** A screen coordinate: an offset added and the sum cut to 16 bits. */
  function Shifted(a: int, offset: int): (r: int)
    ensures 0 <= r < U16
  {
    (a + offset) % U16
  }

  /** The same column in the row as far from the bottom as this one is from the top. */
  function Mirror(w: nat, h: nat, t: nat): int
    requires w > 0
  {
    (h - 1 - Row(w, t)) * w + Column(w, t)
  }

  /** The file pixel drawn at turn t: row by row down the screen, from the file's last row for a bottom-left origin. */
  function FilePixel(f: File, t: nat): int
    requires f.Width() > 0
  {
    if f.TopLeft() then t else Mirror(f.Width(), f.Height(), t)
  }

  /** Where the plain decoder reads pixel n: offsets are computed in 32 bits. */
  function PlainAddress(f: File, n: int): nat {
    f.ImageStart() + n * f.PixelSize() % U32
  }

  function PlainColour(f: File, n: int): nat {
    f.ColourAt(PlainAddress(f, n))
  }

  function PlainDot(f: File, x: nat, y: nat, t: nat): Dot
    requires f.Width() > 0
  {
    Dot(Shifted(Column(f.Width(), t), x), Shifted(Row(f.Width(), t), y), PlainColour(f, FilePixel(f, t)))
  }

  function PlainDots(f: File, x: nat, y: nat, n: nat): (r: seq<Dot>)
    requires n > 0 ==> f.Width() > 0
    ensures |r| == n && forall t :: 0 <= t < n ==> r[t] == PlainDot(f, x, y, t)
  {
    if n == 0 then [] else PlainDots(f, x, y, n - 1) + [PlainDot(f, x, y, n - 1)]
  }

  // ----- The run-length decoder -----

  /** A counter compared for equality with a zero limit goes once around 32 bits. */
  function Around(n: nat): (r: nat)
    ensures r > 0
  {
    if n == 0 then U32 else n
  }

  /** Pixels after which the decoder stops at the next packet. */
  function Enough(f: File): (r: nat)
    ensures r > 0
  {
    ProductPositive(Around(f.Width()), Around(f.Height()));
    Around(f.Width()) * Around(f.Height())
  }

  lemma ProductPositive(a: nat, b: nat)
    requires a > 0 && b > 0
    ensures a * b > 0
  {
  }

  /** The row counter after r rows: down from the height for a bottom-left origin, up from 0 otherwise. */
  function RowCounter(f: File, r: nat): (y: nat)
    ensures y < U32
  {
    if f.TopLeft() then r % U32 else (f.Height() - r) % U32
  }

  function RunDot(f: File, x: nat, y: nat, n: nat, colour: nat): Dot {
    var w := Around(f.Width());
    Dot(Shifted(Column(w, n), x), Shifted(RowCounter(f, Row(w, n)), y), colour)
  }

  /** The colours in file order, placed one after the other. */
  function Laid(f: File, x: nat, y: nat, colours: seq<nat>): (r: seq<Dot>)
    ensures |r| == |colours| && forall n :: 0 <= n < |r| ==> r[n] == RunDot(f, x, y, n, colours[n])
  {
    var n := |colours| - 1;
    if colours == [] then [] else Laid(f, x, y, colours[..n]) + [RunDot(f, x, y, n, colours[n])]
  }

  /** n colours stored one after the other. */
  function RawColours(f: File, a: nat, n: nat): (r: seq<nat>)
    ensures |r| == n
    decreases n
  {
    if n == 0 then [] else [f.ColourAt(a)] + RawColours(f, a + f.PixelSize(), n - 1)
  }

  function PacketCount(f: File, a: nat): nat { f.memory(a) % 128 + 1 }

  predicate PacketIsRun(f: File, a: nat) { f.memory(a) >= 128 }

  function PacketColours(f: File, a: nat): (r: seq<nat>)
    ensures |r| == PacketCount(f, a)
  {
    if PacketIsRun(f, a) then Repeat(f.ColourAt(a + 1), PacketCount(f, a)) else RawColours(f, a + 1, PacketCount(f, a))
  }

  function PacketEnd(f: File, a: nat): nat {
    a + 1 + if PacketIsRun(f, a) then f.PixelSize() else PacketCount(f, a) * f.PixelSize()
  }

  /** The colours of whole packets from a on, until at least n are there. */
  function Expand(f: File, a: nat, n: int): (r: seq<nat>)
    ensures |r| >= n
    decreases n
  {
    if n <= 0 then [] else PacketColours(f, a) + Expand(f, PacketEnd(f, a), n - PacketCount(f, a))
  }

  function RunDots(f: File, x: nat, y: nat): seq<Dot> {
    Laid(f, x, y, Expand(f, f.ImageStart(), Enough(f)))
  }
}
