/** TGA files written down field by field: what both decoders show of them. */
module TargaFiles {
  import opened Machine
  import opened Lists
  import opened Drawing
  import opened TargaSpec
  import opened TargaTheorems
  import opened TargaPackets

  /** A number below 2^16 as two bytes, low byte first. */
  function Two(v: nat): seq<Byte>
    requires v < 0x1_0000
  {
    [v % 256, v / 256]
  }

  /**
   The header, the identification field and the colour map of a file (Truevision TGA File Format Specification 2.0).
   */
  datatype Targa = Targa(
    id: seq<Byte>, mapType: Byte, imageType: Byte, firstEntry: nat, entries: seq<Pixel>, entryBits: Byte,
    xOrigin: nat, yOrigin: nat, width: nat, height: nat, depth: Byte,
    attributeBits: nat, rightToLeft: bool, topDown: bool, interleaving: nat)
  {
    ghost predicate Valid() {
      && |id| < 256 && |entries| < 0x1_0000 && Uniform(entries, entryBits / 8) && (mapType == 0 ==> entries == [])
      && firstEntry < 0x1_0000 && xOrigin < 0x1_0000 && yOrigin < 0x1_0000 && width < 0x1_0000 && height < 0x1_0000
      && attributeBits < 16 && interleaving < 4
    }

    ghost function Descriptor(): Byte
      requires Valid()
    {
      64 * interleaving + (if topDown then 32 else 0) + (if rightToLeft then 16 else 0) + attributeBits
    }

    ghost function Header(): (r: seq<Byte>)
      requires Valid()
      ensures |r| == 18
    {
      [|id|, mapType, imageType] + Two(firstEntry) + Two(|entries|) + [entryBits]
      + Two(xOrigin) + Two(yOrigin) + Two(width) + Two(height) + [depth, Descriptor()]
    }

    ghost function Bytes(data: seq<Byte>): seq<Byte>
      requires Valid()
    {
      Header() + (id + (Joined(entries) + data))
    }

    predicate UsesMap() { imageType == 1 || imageType == 9 }

    /** Bytes per stored pixel. */
    function Size(): nat {
      if UsesMap() then (if depth == 8 then 1 else 2) else (if depth == 24 then 3 else 4)
    }

    /** Every pixel has a colour: with a colour map, an entry of 24 or 32 bits. */
    ghost predicate Coloured(pixels: seq<Pixel>) {
      UsesMap() ==>
        && (entryBits == 24 || entryBits == 32)
        && forall n :: 0 <= n < |pixels| ==> LittleEndian(pixels[n]) < |entries|
    }

    /** The colour of a pixel: the entry its index names, or the pixel itself. */
    function Shown(pixel: Pixel): nat
      requires UsesMap() ==> LittleEndian(pixel) < |entries|
    {
      LittleEndian(if UsesMap() then entries[LittleEndian(pixel)] else pixel)
    }
  }

  /** The file lies in memory with its image data. */
  ghost predicate Loaded(f: File, t: Targa, data: seq<Byte>) {
    t.Valid() && Holds(f.memory, f.start, t.Bytes(data))
  }

  lemma Parts(f: File, t: Targa, data: seq<Byte>)
    requires Loaded(f, t, data)
    ensures var a := f.start + 18;
      && Holds(f.memory, f.start, t.Header())
      && Holds(f.memory, a + |t.id|, Joined(t.entries))
      && Holds(f.memory, a + |t.id| + |Joined(t.entries)|, data)
  {
    hide Holds;
    HoldsParts(f.memory, f.start, t.Header(), t.id + (Joined(t.entries) + data));
    HoldsParts(f.memory, f.start + 18, t.id, Joined(t.entries) + data);
    HoldsParts(f.memory, f.start + 18 + |t.id|, Joined(t.entries), data);
  }

  lemma HeaderByte(f: File, t: Targa, i: nat)
    requires t.Valid() && Holds(f.memory, f.start, t.Header()) && i < 18
    ensures f.memory(f.start + i) == t.Header()[i]
  {
  }

  lemma HeaderTwo(f: File, t: Targa, i: nat, v: nat)
    requires t.Valid() && Holds(f.memory, f.start, t.Header()) && i < 17 && v < 0x1_0000
    requires t.Header()[i] == v % 256 && t.Header()[i + 1] == v / 256
    ensures f.Word(f.start + i) == v
  {
    HeaderByte(f, t, i);
    HeaderByte(f, t, i + 1);
    assert f.start + i + 1 == f.start + (i + 1);
  }

  /** The fields of the header as put_targa reads them. */
  lemma FieldsReadBack(f: File, t: Targa, data: seq<Byte>)
    requires Loaded(f, t, data)
    ensures f.IdLength() == |t.id| && f.MapType() == t.mapType && f.ImageType() == t.imageType
    ensures f.MapLength() == |t.entries| && f.MapEntrySize() == t.entryBits
    ensures f.Width() == t.width && f.Height() == t.height && f.BitsPerPixel() == t.depth
    ensures f.TopLeft() == t.topDown
  {
    Parts(f, t, data);
    var h := t.Header();
    hide Holds;
    HeaderByte(f, t, 0);
    HeaderByte(f, t, 1);
    HeaderByte(f, t, 2);
    HeaderTwo(f, t, 5, |t.entries|);
    HeaderByte(f, t, 7);
    HeaderTwo(f, t, 12, t.width);
    HeaderTwo(f, t, 14, t.height);
    HeaderByte(f, t, 16);
    HeaderByte(f, t, 17);
    OriginBit(t);
  }

  lemma OriginBit(t: Targa)
    requires t.Valid()
    ensures t.Descriptor() / 32 % 2 == if t.topDown then 1 else 0
  {
    var low := (if t.rightToLeft then 16 else 0) + t.attributeBits;
    var high := 2 * t.interleaving + if t.topDown then 1 else 0;
    QuotientRemainder(32, high, low);
  }

  /** Which files are drawn, how many bytes a pixel takes, and where the image data lies. */
  lemma LayoutReadsBack(f: File, t: Targa, data: seq<Byte>)
    requires Loaded(f, t, data)
    ensures f.Supported() <==>
      || ((t.imageType == 1 || t.imageType == 9) && t.mapType != 0 && t.entryBits != 16)
      || ((t.imageType == 2 || t.imageType == 10) && t.depth != 16)
    ensures f.Mapped() == t.UsesMap() && f.PixelSize() == t.Size()
    ensures f.MapStart() == f.start + 18 + |t.id| && Holds(f.memory, f.MapStart(), Joined(t.entries))
    ensures f.ImageStart() == f.MapStart() + |Joined(t.entries)| && Holds(f.memory, f.ImageStart(), data)
  {
    FieldsReadBack(f, t, data);
    Parts(f, t, data);
    JoinedLength(t.entries, t.entryBits / 8);
    hide Holds;
  }

  lemma EntryReadsBack(f: File, entries: seq<Pixel>, k: nat, v: nat)
    requires f.Mapped() && (k == 3 || k == 4) && f.MapEntrySize() == 8 * k && v < |entries|
    requires Uniform(entries, k) && Holds(f.memory, f.MapStart(), Joined(entries))
    ensures f.Colour(v) == LittleEndian(entries[v])
  {
    hide Holds, Uniform, Joined, LittleEndian, Read, File.MapStart, File.Mapped, File.MapEntrySize;
    if k == 3 {
      HoldsPixel(f.memory, f.MapStart(), entries, 3, v);
    } else {
      HoldsPixel(f.memory, f.MapStart(), entries, 4, v);
    }
  }

  /** The colour shown for a pixel of the file. */
  lemma ColourReadsBack(f: File, t: Targa, data: seq<Byte>, pixel: Pixel)
    requires Loaded(f, t, data) && t.Coloured([pixel])
    ensures t.UsesMap() ==> LittleEndian(pixel) < |t.entries|
    ensures f.Colour(LittleEndian(pixel)) == t.Shown(pixel)
  {
    hide Holds, LittleEndian, File.MapStart, File.ImageStart;
    FieldsReadBack(f, t, data);
    LayoutReadsBack(f, t, data);
    if t.UsesMap() {
      assert LittleEndian([pixel][0]) < |t.entries|;
      hide File.Colour;
      EntryReadsBack(f, t.entries, t.entryBits / 8, LittleEndian(pixel));
    }
  }

  lemma ColouredOne(t: Targa, pixels: seq<Pixel>, n: nat)
    requires t.Coloured(pixels) && n < |pixels|
    ensures t.Coloured([pixels[n]])
  {
    hide LittleEndian;
  }

  // ----- What is on the screen -----

  /** The pixel of the file for column j of row i, rows counted from the top of the picture. */
  function At(t: Targa, i: nat, j: nat): int {
    (if t.topDown then i else t.height - 1 - i) * t.width + j
  }

  /** A plain file shows the colour of each of its pixels at its place. */
  lemma PlainFileShows(
    c: Canvas, f: File, t: Targa, pixels: seq<Pixel>, x: nat, y: nat, i: nat, j: nat, place: (int, int))
    requires Loaded(f, t, Joined(pixels)) && Uniform(pixels, t.Size()) && t.Coloured(pixels)
    requires |pixels| == t.width * t.height && i < t.height && j < t.width
    requires At(t, i, j) * t.Size() < 0x1_0000_0000
    requires place == ((j + x) % 0x1_0000, (i + y) % 0x1_0000) && place in c
    ensures f.Width() * f.Height() == |pixels| && 0 <= At(t, i, j) < |pixels|
    ensures t.UsesMap() ==> LittleEndian(pixels[At(t, i, j)]) < |t.entries|
    ensures Draw(c, PlainDots(f, x, y, |pixels|))[place] == t.Shown(pixels[At(t, i, j)])
  {
    hide Holds, Uniform, Joined, LittleEndian, Draw, PlainDots, PlainColour, Shifted, Targa.Shown, Targa.Coloured;
    FieldsReadBack(f, t, Joined(pixels));
    LayoutReadsBack(f, t, Joined(pixels));
    AtInImage(t, i, j);
    ShiftedIs(j, x);
    ShiftedIs(i, y);
    PlainShows(c, f, x, y, i, j);
    var n := At(t, i, j);
    PlainHolds(f, pixels, n);
    ColouredOne(t, pixels, n);
    ColourReadsBack(f, t, Joined(pixels), pixels[n]);
  }

  lemma AtInImage(t: Targa, i: nat, j: nat)
    requires i < t.height && j < t.width
    ensures 0 <= At(t, i, j) < t.width * t.height
  {
    var r := if t.topDown then i else t.height - 1 - i;
    Times(t.width, 0, r);
    Times(t.width, r + 1, t.height);
  }

  /** A run-length file does too, however its pixels are cut into packets, a row lower for a bottom-left origin. */
  lemma RunLengthFileShows(
    c: Canvas, f: File, t: Targa, packets: seq<Packet>, x: nat, y: nat, i: nat, j: nat, place: (int, int))
    requires AllValid(packets, t.Size()) && Loaded(f, t, Stream(packets, t.Size())) && t.Coloured(Expansion(packets))
    requires |Expansion(packets)| == t.width * t.height && i < t.height && j < t.width
    requires place == ((j + x) % 0x1_0000, ((if t.topDown then i else i + 1) + y) % 0x1_0000) && place in c
    ensures 0 <= At(t, i, j) < |Expansion(packets)|
    ensures t.UsesMap() ==> LittleEndian(Expansion(packets)[At(t, i, j)]) < |t.entries|
    ensures Draw(c, RunDots(f, x, y))[place] == t.Shown(Expansion(packets)[At(t, i, j)])
  {
    hide *;
    AtInImage(t, i, j);
    RunDotsOfFile(f, t, packets, x, y);
    PixelColour(f, t, Stream(packets, t.Size()), Expansion(packets), At(t, i, j));
    LaidAt(c, f, t, x, y, Colours(f, Expansion(packets)), i, j, place);
  }

  lemma PixelColour(f: File, t: Targa, data: seq<Byte>, pixels: seq<Pixel>, n: nat)
    requires Loaded(f, t, data) && t.Coloured(pixels) && n < |pixels|
    ensures t.UsesMap() ==> LittleEndian(pixels[n]) < |t.entries|
    ensures Colours(f, pixels)[n] == t.Shown(pixels[n])
  {
    hide Loaded, LittleEndian, File.Colour, Targa.Shown, Targa.Coloured;
    ColouredOne(t, pixels, n);
    ColourReadsBack(f, t, data, pixels[n]);
  }

  lemma LaidAt(
    c: Canvas, f: File, t: Targa, x: nat, y: nat, colours: seq<nat>, i: nat, j: nat, place: (int, int))
    requires f.Width() == t.width && f.Height() == t.height && f.TopLeft() == t.topDown
    requires |colours| == t.width * t.height && i < t.height && j < t.width
    requires place == ((j + x) % 0x1_0000, ((if t.topDown then i else i + 1) + y) % 0x1_0000) && place in c
    ensures 0 <= At(t, i, j) < |colours| && Draw(c, Laid(f, x, y, colours))[place] == colours[At(t, i, j)]
  {
    hide Laid, Draw, Shifted, Lowered;
    PlaceLowered(f, i, y);
    ShiftedIs(j, x);
    LaidShows(c, f, x, y, colours, i, j);
  }

  /** The run-length decoder lays down the colours of the file's pixels. */
  lemma RunDotsOfFile(f: File, t: Targa, packets: seq<Packet>, x: nat, y: nat)
    requires AllValid(packets, t.Size()) && Loaded(f, t, Stream(packets, t.Size()))
    requires |Expansion(packets)| == t.width * t.height && t.width > 0 && t.height > 0
    ensures f.Width() == t.width && f.Height() == t.height && f.TopLeft() == t.topDown
    ensures RunDots(f, x, y) == Laid(f, x, y, Colours(f, Expansion(packets)))
  {
    var data := Stream(packets, t.Size());
    hide Holds, Joined, LittleEndian, Laid, Expand, Colours, Stream, Expansion;
    FieldsReadBack(f, t, data);
    LayoutReadsBack(f, t, data);
    StreamExpands(f, f.ImageStart(), packets);
    EnoughOfImage(f);
    RunDotsAre(f, x, y);
  }

  lemma PlaceLowered(f: File, i: nat, y: nat)
    ensures Shifted(i, Lowered(f, y)) == ((if f.TopLeft() then i else i + 1) + y) % 0x1_0000
  {
    ShiftLowered(i, y);
  }

  lemma ShiftedIs(a: int, offset: int)
    ensures Shifted(a, offset) == (a + offset) % 0x1_0000
  {
  }

  lemma EnoughOfImage(f: File)
    requires f.Width() > 0 && f.Height() > 0
    ensures Enough(f) == f.Width() * f.Height()
  {
  }

  /** A plain and a run-length file of the same picture are files that PacketsMatchPlain speaks of. */
  lemma TwinFiles(f: File, g: File, t: Targa, packets: seq<Packet>)
    requires (t.imageType == 1 || t.imageType == 2) && AllValid(packets, t.Size()) && t.Coloured(Expansion(packets))
    requires |Expansion(packets)| == t.width * t.height && t.width > 0 && t.height > 0
    requires (t.width * t.height - 1) * t.Size() < 0x1_0000_0000
    requires Loaded(f, t, Joined(Expansion(packets)))
    requires Loaded(g, t.(imageType := t.imageType + 8), Stream(packets, t.Size()))
    ensures SamePixels(f, g, packets)
  {
    var u, pixels, data := t.(imageType := t.imageType + 8), Expansion(packets), Stream(packets, t.Size());
    hide Holds, Joined, LittleEndian, Stream, Expansion, Targa.Shown, Targa.Coloured;
    FieldsReadBack(f, t, Joined(pixels));
    LayoutReadsBack(f, t, Joined(pixels));
    FieldsReadBack(g, u, data);
    LayoutReadsBack(g, u, data);
    forall n | 0 <= n < |pixels| ensures f.Colour(LittleEndian(pixels[n])) == g.Colour(LittleEndian(pixels[n])) {
      ColouredOne(t, pixels, n);
      ColourReadsBack(f, t, Joined(pixels), pixels[n]);
      TwinColoured(t, u, pixels[n]);
      ColourReadsBack(g, u, data, pixels[n]);
    }
  }

  lemma TwinColoured(t: Targa, u: Targa, pixel: Pixel)
    requires (t.imageType == 1 || t.imageType == 2) && u == t.(imageType := t.imageType + 8)
    requires t.Coloured([pixel]) && (t.UsesMap() ==> LittleEndian(pixel) < |t.entries|)
    ensures u.Coloured([pixel]) && (u.UsesMap() ==> LittleEndian(pixel) < |u.entries|)
    ensures u.Shown(pixel) == t.Shown(pixel)
  {
  }
}
