/** Run-length packets as bytes in memory: decoding gives back the pixels they stand for. */
module TargaPackets {
  import opened Machine
  import opened Lists
  import opened Drawing
  import opened TargaSpec
  import opened TargaTheorems

  type Pixel = seq<Byte>

  /** One pixel repeated, or pixels one after the other; at most 128 either way. */
  datatype Packet = Run(count: nat, pixel: Pixel) | Raw(pixels: seq<Pixel>) {
    predicate Valid(k: nat) {
      match this
      case Run(count, pixel) => 1 <= count <= 128 && |pixel| == k
      case Raw(pixels) => 1 <= |pixels| <= 128 && Uniform(pixels, k)
    }

    function Bytes(k: nat): seq<Byte>
      requires Valid(k)
    {
      match this
      case Run(count, pixel) => [127 + count] + pixel
      case Raw(pixels) => [|pixels| - 1] + Joined(pixels)
    }

    function Pixels(): seq<Pixel> {
      match this
      case Run(count, pixel) => Repeat(pixel, count)
      case Raw(pixels) => pixels
    }
  }

  predicate Uniform(pixels: seq<Pixel>, k: nat) {
    forall i :: 0 <= i < |pixels| ==> |pixels[i]| == k
  }

  function Joined(pixels: seq<Pixel>): seq<Byte> {
    if pixels == [] then [] else pixels[0] + Joined(pixels[1..])
  }

  predicate AllValid(packets: seq<Packet>, k: nat) {
    forall i :: 0 <= i < |packets| ==> packets[i].Valid(k)
  }

  function Stream(packets: seq<Packet>, k: nat): seq<Byte>
    requires AllValid(packets, k)
  {
    if packets == [] then [] else packets[0].Bytes(k) + Stream(packets[1..], k)
  }

  function Expansion(packets: seq<Packet>): seq<Pixel> {
    if packets == [] then [] else packets[0].Pixels() + Expansion(packets[1..])
  }

  /** Memory holds the bytes from a on. */
  ghost predicate Holds(memory: nat -> Byte, a: nat, bytes: seq<Byte>) {
    forall i :: 0 <= i < |bytes| ==> memory(a + i) == bytes[i]
  }

  function Colours(f: File, pixels: seq<Pixel>): (r: seq<nat>)
    ensures |r| == |pixels| && forall n :: 0 <= n < |r| ==> r[n] == f.Colour(LittleEndian(pixels[n]))
  {
    if pixels == [] then [] else [f.Colour(LittleEndian(pixels[0]))] + Colours(f, pixels[1..])
  }

  lemma HoldsRead(memory: nat -> Byte, a: nat, bytes: seq<Byte>)
    requires Holds(memory, a, bytes)
    ensures Read(memory, a, |bytes|) == bytes
  {
  }

  lemma HoldsParts(memory: nat -> Byte, a: nat, front: seq<Byte>, back: seq<Byte>)
    requires Holds(memory, a, front + back)
    ensures Holds(memory, a, front) && Holds(memory, a + |front|, back)
  {
    var all := front + back;
    forall i | 0 <= i < |front| ensures memory(a + i) == front[i] {
      assert all[i] == front[i];
    }
    forall i | 0 <= i < |back| ensures memory(a + |front| + i) == back[i] {
      assert all[|front| + i] == back[i];
      assert a + |front| + i == a + (|front| + i);
    }
  }

  lemma {:induction false} JoinedLength(pixels: seq<Pixel>, k: nat)
    requires Uniform(pixels, k)
    ensures |Joined(pixels)| == |pixels| * k
  {
    if pixels != [] {
      JoinedLength(pixels[1..], k);
    }
  }

  /** Pixel n of pixels stored one after the other. */
  lemma {:induction false} HoldsPixel(memory: nat -> Byte, a: nat, pixels: seq<Pixel>, k: nat, n: nat)
    requires Uniform(pixels, k) && Holds(memory, a, Joined(pixels)) && n < |pixels|
    ensures n * k >= 0 && Read(memory, a + n * k, k) == pixels[n]
    decreases n
  {
    HoldsParts(memory, a, pixels[0], Joined(pixels[1..]));
    if n == 0 {
      HoldsRead(memory, a, pixels[0]);
    } else {
      HoldsPixel(memory, a + k, pixels[1..], k, n - 1);
      assert a + k + (n - 1) * k == a + n * k;
    }
  }

  lemma {:induction false} RawExpands(f: File, a: nat, pixels: seq<Pixel>)
    requires Uniform(pixels, f.PixelSize()) && Holds(f.memory, a, Joined(pixels))
    ensures RawColours(f, a, |pixels|) == Colours(f, pixels)
    decreases |pixels|
  {
    hide Holds;
    if pixels != [] {
      HoldsParts(f.memory, a, pixels[0], Joined(pixels[1..]));
      HoldsRead(f.memory, a, pixels[0]);
      ColourRead(f, a, pixels[0]);
      RawExpands(f, a + f.PixelSize(), pixels[1..]);
    }
  }

  /** One packet is read back whole. */
  lemma PacketExpands(f: File, a: nat, p: Packet)
    requires p.Valid(f.PixelSize()) && Holds(f.memory, a, p.Bytes(f.PixelSize()))
    ensures PacketCount(f, a) == |p.Pixels()| && PacketColours(f, a) == Colours(f, p.Pixels())
    ensures PacketEnd(f, a) == a + |p.Bytes(f.PixelSize())|
  {
    var bytes := p.Bytes(f.PixelSize());
    assert f.memory(a + 0) == bytes[0];
    hide Holds, LittleEndian, File.Colour;
    match p {
      case Run(count, pixel) =>
        HoldsParts(f.memory, a, [bytes[0]], pixel);
        HoldsRead(f.memory, a + 1, pixel);
      case Raw(pixels) =>
        HoldsParts(f.memory, a, [bytes[0]], Joined(pixels));
        RawExpands(f, a + 1, pixels);
        JoinedLength(pixels, f.PixelSize());
    }
  }

  /** Decoding undoes encoding, for every stream of packets. */
  lemma {:induction false} StreamExpands(f: File, a: nat, packets: seq<Packet>)
    requires AllValid(packets, f.PixelSize()) && Holds(f.memory, a, Stream(packets, f.PixelSize()))
    ensures Expand(f, a, |Expansion(packets)|) == Colours(f, Expansion(packets))
    decreases |packets|
  {
    var k := f.PixelSize();
    if packets != [] {
      var p, rest := packets[0], packets[1..];
      HoldsParts(f.memory, a, p.Bytes(f.PixelSize()), Stream(rest, k));
      PacketExpands(f, a, p);
      StreamExpands(f, PacketEnd(f, a), rest);
      ColoursJoin(f, p.Pixels(), Expansion(rest));
    }
  }

  lemma ColoursJoin(f: File, p: seq<Pixel>, q: seq<Pixel>)
    ensures Colours(f, p + q) == Colours(f, p) + Colours(f, q)
  {
  }

  /** The plain decoder reads pixel n where it is stored. */
  ghost predicate ReadInPlace(f: File, n: nat) {
    PlainAddress(f, n) == f.ImageStart() + n * f.PixelSize()
  }

  lemma InPlaceIff(f: File, n: nat)
    ensures n * f.PixelSize() >= 0
    ensures ReadInPlace(f, n) <==> n * f.PixelSize() < U32
  {
    var offset: nat := n * f.PixelSize();
    assert offset % U32 == offset <==> offset < U32;
  }

  /** It does so for every pixel of a file exactly while the last offset fits in 32 bits. */
  lemma OffsetsExactIff(f: File)
    requires f.Width() * f.Height() > 0
    ensures (forall n: nat :: n < f.Width() * f.Height() ==> ReadInPlace(f, n))
      <==> (f.Width() * f.Height() - 1) * f.PixelSize() < U32
  {
    var total, k := f.Width() * f.Height(), f.PixelSize();
    hide ReadInPlace;
    if (total - 1) * k < U32 {
      forall n: nat | n < total ensures ReadInPlace(f, n) {
        InPlaceIff(f, n);
        Times(k, n, total - 1);
      }
    } else {
      InPlaceIff(f, total - 1);
      assert !ReadInPlace(f, total - 1);
    }
  }

  /** One-byte indices never reach the limit. */
  lemma OneByteOffsetsExact(f: File)
    requires f.Width() * f.Height() > 0 && f.PixelSize() == 1
    ensures forall n: nat :: n < f.Width() * f.Height() ==> ReadInPlace(f, n)
  {
    OffsetsExactIff(f);
    AreaFits(f);
  }

  /** A true-colour file of 65535 by 65535 pixels of four bytes, black but for the pixel stored 2^32 bytes in. */
  function Huge(): File {
    File((a: nat) =>
      if a == 2 then 2
      else if 12 <= a < 16 then 255
      else if a == 16 then 32
      else if a == HEADER_SIZE + U32 then 1
      else 0, 0)
  }

  /** That pixel is shown in the first pixel's colour. */
  lemma HugeMisread()
    ensures var f, n := Huge(), U32 / 4;
      && f.Plain() && f.Supported() && f.Width() == 65535 && f.Height() == 65535 && f.PixelSize() == 4
      && n < f.Width() * f.Height()
      && PlainAddress(f, n) == f.ImageStart()
      && PlainColour(f, n) == 0 && f.ColourAt(f.ImageStart() + n * f.PixelSize()) == 1
  {
    var f, n := Huge(), U32 / 4;
    assert f.ImageStart() == HEADER_SIZE;
    assert n * f.PixelSize() == U32;
    ReadFour(f, HEADER_SIZE);
    ReadFour(f, HEADER_SIZE + U32);
  }

  lemma ColourRead(f: File, a: nat, pixel: Pixel)
    requires Read(f.memory, a, f.PixelSize()) == pixel
    ensures f.ColourAt(a) == f.Colour(LittleEndian(pixel))
  {
  }

  /** A plain file that holds the pixels shows their colours. */
  lemma PlainHolds(f: File, pixels: seq<Pixel>, n: nat)
    requires Uniform(pixels, f.PixelSize()) && Holds(f.memory, f.ImageStart(), Joined(pixels)) && n < |pixels|
    requires n * f.PixelSize() < U32
    ensures PlainColour(f, n) == f.Colour(LittleEndian(pixels[n]))
  {
    hide Holds, Joined, Uniform;
    var k := f.PixelSize();
    InPlaceIff(f, n);
    HoldsPixel(f.memory, f.ImageStart(), pixels, k, n);
    ColourRead(f, f.ImageStart() + n * k, pixels[n]);
  }

  /** A plain file and a run-length one with the same pixels, however those are cut into packets. */
  ghost predicate SamePixels(f: File, g: File, packets: seq<Packet>) {
    var k := g.PixelSize();
    && f.Width() == g.Width() > 0
    && f.Height() == g.Height() > 0
    && f.TopLeft() == g.TopLeft()
    && f.PixelSize() == k
    && (forall n :: 0 <= n < |Expansion(packets)| ==>
         f.Colour(LittleEndian(Expansion(packets)[n])) == g.Colour(LittleEndian(Expansion(packets)[n])))
    && AllValid(packets, k)
    && |Expansion(packets)| == f.Width() * f.Height()
    && Holds(g.memory, g.ImageStart(), Stream(packets, k))
    && Holds(f.memory, f.ImageStart(), Joined(Expansion(packets)))
    && (f.Width() * f.Height() - 1) * k < U32
  }

  lemma {:induction false} ExpansionUniform(packets: seq<Packet>, k: nat)
    requires AllValid(packets, k)
    ensures Uniform(Expansion(packets), k)
  {
    if packets != [] {
      ExpansionUniform(packets[1..], k);
    }
  }

  /** Packets may cross rows and be cut anywhere: the picture is the plain one, a row lower for a bottom-left origin. */
  lemma PacketsMatchPlain(c: Canvas, f: File, g: File, x: nat, y: nat, packets: seq<Packet>)
    requires SamePixels(f, g, packets)
    ensures Draw(c, RunDots(g, x, y)) == Draw(c, PlainDots(f, x, Lowered(f, y), f.Width() * f.Height()))
  {
    var pixels := Expansion(packets);
    hide Laid, PlainDots, Lowered, PlainColour, Expand, Colours, Holds, Stream, Joined;
    ExpansionUniform(packets, g.PixelSize());
    StreamExpands(g, g.ImageStart(), packets);
    forall n | 0 <= n < |pixels| ensures Colours(g, pixels)[n] == PlainColour(f, n) {
      Times(f.PixelSize(), n, |pixels| - 1);
      PlainHolds(f, pixels, n);
    }
    RunLengthMatchesPlain(c, f, g, x, y, Colours(g, pixels));
  }

  /** One dot that the lowered picture does not cover shows the difference. */
  lemma LoweredDiffers(f: File, x: nat, y: nat)
    requires f.Width() > 0 && f.Height() > 0 && !f.TopLeft()
    ensures exists c: Canvas ::
      Draw(c, PlainDots(f, x, Lowered(f, y), f.Width() * f.Height()))
        != Draw(c, PlainDots(f, x, y, f.Width() * f.Height()))
  {
    hide PlainDots, PlainColour, Draw, Shifted, Source;
    var p := (Shifted(0, x), Shifted(0, y));
    var c: Canvas := map[p := PlainColour(f, Source(f, 0, 0)) + 1];
    PlainShows(c, f, x, y, 0, 0);
    WordFits(f, f.start + 14);
    forall i: nat, j: nat | i < f.Height() && j < f.Width() ensures p != (Shifted(j, x), Shifted(i, Lowered(f, y))) {
      ShiftLowered(i, y);
      if Shifted(i + 1, y) == Shifted(0, y) {
        ShiftApart(i + 1, 0, y);
      }
    }
    PlainSpares(c, f, x, Lowered(f, y), p);
  }

  /** The two decoders draw the same picture on every screen exactly for a top-left origin. */
  lemma SameDrawingIff(f: File, g: File, x: nat, y: nat, packets: seq<Packet>)
    requires SamePixels(f, g, packets)
    ensures (forall c: Canvas :: Draw(c, RunDots(g, x, y)) == Draw(c, PlainDots(f, x, y, f.Width() * f.Height())))
      <==> f.TopLeft()
  {
    hide RunDots, PlainDots, Draw;
    forall c: Canvas
      ensures Draw(c, RunDots(g, x, y)) == Draw(c, PlainDots(f, x, Lowered(f, y), f.Width() * f.Height()))
    {
      PacketsMatchPlain(c, f, g, x, y, packets);
    }
    if !f.TopLeft() {
      hide SamePixels, Lowered;
      LoweredDiffers(f, x, y);
    }
  }
}
