/** put_targa: a frame buffer and the decoders that write it. */
module TargaMem {
  import opened Machine
  import opened Lists
  import opened Drawing
  import opened TargaSpec
  import opened TargaTheorems

  lemma IndexInRange(width: nat, height: nat, x: nat, y: nat)
    requires x < width && y < height
    ensures 0 <= y * width + x < width * height
  {
    Times(width, 0, y);
    Times(width, y + 1, height);
  }

  /** Where the run-length decoder stands: column and row counter, and whether the last row has been completed. */
  datatype Cursor = Cursor(x: int, y: int, end: bool)

  /** The cursor after n pixels. */
  ghost predicate At(f: File, n: nat, c: Cursor) {
    var w := Around(f.Width());
    && c.x == Column(w, n)
    && c.y == RowCounter(f, Row(w, n))
    && (c.end <==> n >= Enough(f))
  }

  lemma AtStart(f: File)
    ensures At(f, 0, Cursor(0, if f.TopLeft() then 0 else f.Height(), false))
  {
    WordFits(f, f.start + 14);
  }

  lemma CutTwice(a: int, offset: int)
    ensures (a + offset) % U32 % U16 == Shifted(a, offset)
  {
  }

  lemma NextPlace(w: nat, n: nat)
    requires w > 0
    ensures Column(w, n) + 1 < w ==> Row(w, n + 1) == Row(w, n) && Column(w, n + 1) == Column(w, n) + 1
    ensures Column(w, n) + 1 == w ==> Row(w, n + 1) == Row(w, n) + 1 && Column(w, n + 1) == 0
  {
    hide Row, Column;
    RowsBelow(w, 0, n);
    var r, x := Row(w, n), Column(w, n);
    if x + 1 < w {
      RowColumn(w, r, x + 1);
    } else {
      RowColumn(w, r + 1, 0);
      assert (r + 1) * w == r * w + w;
    }
  }

  /** Wrapping at 32 bits, a counter below the limit meets it exactly on its last step. */
  lemma MeetsLimit(limit: nat, a: nat)
    requires limit < U32 && a < Around(limit)
    ensures a + 1 <= Around(limit)
    ensures (a + 1) % U32 == limit <==> a + 1 == Around(limit)
    ensures a + 1 < Around(limit) ==> (a + 1) % U32 == a + 1
  {
  }

  lemma RowDown(f: File, r: nat)
    requires !f.TopLeft() && f.Height() < U32
    ensures RowCounter(f, r + 1) == (RowCounter(f, r) - 1) % U32
    ensures r < Around(f.Height()) ==> (RowCounter(f, r + 1) == 0 <==> r + 1 == Around(f.Height()))
  {
    var h := f.Height();
    assert RowCounter(f, r) == (h - r) % U32 && RowCounter(f, r + 1) == (h - (r + 1)) % U32;
    hide File.TopLeft, File.Height, RowCounter;
  }

  lemma RowUp(f: File, r: nat)
    requires f.TopLeft() && f.Height() < U32
    ensures RowCounter(f, r + 1) == (RowCounter(f, r) + 1) % U32
    ensures r < Around(f.Height()) ==> (RowCounter(f, r + 1) == f.Height() <==> r + 1 == Around(f.Height()))
  {
  }

  /** The step every pixel takes: right, and at the end of a row to the next one. */
  function Advance(f: File, c: Cursor): Cursor {
    var x := (c.x + 1) % U32;
    if x != f.Width() then Cursor(x, c.y, c.end)
    else if !f.TopLeft() then
      var y := (c.y - 1) % U32;
      Cursor(0, y, c.end || y == 0)
    else
      var y := (c.y + 1) % U32;
      Cursor(0, y, c.end || y == f.Height())
  }

  lemma EnoughIff(f: File, n: nat)
    ensures n >= Enough(f) <==> Row(Around(f.Width()), n) >= Around(f.Height())
  {
    RowsBelow(Around(f.Width()), Around(f.Height()), n);
  }

  lemma AdvanceAt(f: File, n: nat, c: Cursor)
    requires At(f, n, c)
    ensures At(f, n + 1, Advance(f, c))
  {
    WordFits(f, f.start + 12);
    WordFits(f, f.start + 14);
    hide RowCounter, Row, Column, Enough, Around, File.Word;
    var w := Around(f.Width());
    NextPlace(w, n);
    EnoughIff(f, n);
    EnoughIff(f, n + 1);
    MeetsLimit(f.Width(), c.x);
    if f.TopLeft() {
      RowUp(f, Row(w, n));
    } else {
      RowDown(f, Row(w, n));
    }
  }

  // ----- Reading pixels -----

  method Fetch(f: File, a: nat) returns (colour: nat)
    ensures colour == f.ColourAt(a)
  {
    hide LittleEndian, Read;
    if f.Mapped() {
      var index: nat;
      if f.BitsPerPixel() == 8 {
        ReadOne(f, a);
        index := f.Word(a) % 256;
      } else {
        ReadTwo(f, a);
        index := f.Word(a);
      }
      if f.MapEntrySize() == 24 {
        ReadThree(f, f.MapStart() + 3 * index);
        colour := f.DoubleWord(f.MapStart() + 3 * index) % 0x100_0000;
      } else {
        ReadFour(f, f.MapStart() + 4 * index);
        colour := f.DoubleWord(f.MapStart() + 4 * index);
      }
    } else if f.BitsPerPixel() == 24 {
      ReadThree(f, a);
      colour := f.DoubleWord(a) % 0x100_0000;
    } else {
      ReadFour(f, a);
      colour := f.DoubleWord(a);
    }
  }

  class Screen {
    const width: nat
    const height: nat
    const pixels: array<nat>

    ghost predicate Valid() {
      pixels.Length == width * height
    }

    constructor (width: nat, height: nat)
      ensures Valid() && fresh(pixels) && this.width == width && this.height == height
    {
      this.width, this.height := width, height;
      IndexSpace(width, height);
      pixels := new nat[width * height];
    }

    function Index(x: nat, y: nat): (i: nat)
      requires Valid() && x < width && y < height
      ensures i < pixels.Length
    {
      IndexInRange(width, height, x, y);
      y * width + x
    }

    ghost function Places(): set<(int, int)> {
      set x, y | 0 <= x < width && 0 <= y < height :: (x, y)
    }

    /** What is on the screen. */
    ghost function Shown(): (c: Canvas)
      requires Valid()
      reads pixels
    {
      map p | p in Places() :: pixels[Index(p.0, p.1)]
    }

    /** Writes inside the buffer, and nothing outside it. */
    method PutPixel(x: nat, y: nat, colour: nat) returns (ok: bool)
      requires Valid()
      modifies pixels
      ensures ok <==> x < width && y < height
      ensures Shown() == Put(old(Shown()), Dot(x, y, colour))
    {
      ok := x < width && y < height;
      if ok {
        ghost var was := Shown();
        pixels[Index(x, y)] := colour;
        forall p | p in Places() ensures Shown()[p] == Put(was, Dot(x, y, colour))[p] {
          if p != (x, y) {
            IndexApart(p.0, p.1, x, y);
          }
        }
      }
    }

    /** One pixel of a packet: drawn at the cursor, which then moves on. */
    method PutNext(f: File, x: nat, y: nat, c: Cursor, colour: nat, ghost was: Canvas, ghost drawn: seq<nat>)
      returns (c': Cursor)
      requires Valid() && At(f, |drawn|, c) && Shown() == Draw(was, Laid(f, x, y, drawn))
      modifies pixels
      ensures At(f, |drawn| + 1, c') && Shown() == Draw(was, Laid(f, x, y, drawn + [colour]))
    {
      hide Laid, Draw, Shifted, Advance, Enough;
      AdvanceAt(f, |drawn|, c);
      CutTwice(c.x, x);
      CutTwice(c.y, y);
      LaidOne(f, x, y, drawn, colour);
      DrawOne(was, Laid(f, x, y, drawn), RunDot(f, x, y, |drawn|, colour));
      var _ := PutPixel((c.x + x) % U32 % U16, (c.y + y) % U32 % U16, colour);
      c' := Advance(f, c);
    }

    /** The pixels of a run. */
    method PutRun(f: File, x: nat, y: nat, c: Cursor, colour: nat, count: nat, ghost was: Canvas, ghost drawn: seq<nat>)
      returns (c': Cursor)
      requires Valid() && At(f, |drawn|, c) && Shown() == Draw(was, Laid(f, x, y, drawn))
      modifies pixels
      ensures At(f, |drawn| + count, c') && Shown() == Draw(was, Laid(f, x, y, drawn + Repeat(colour, count)))
    {
      hide At, Laid, Draw, Repeat;
      c' := c;
      var run := count;
      ghost var now := drawn;
      assert drawn + [] == drawn;
      RepeatNone(colour);
      while run > 0
        invariant 0 <= run <= count && now == drawn + Repeat(colour, count - run)
        invariant At(f, |now|, c') && Shown() == Draw(was, Laid(f, x, y, now))
      {
        c' := PutNext(f, x, y, c', colour, was, now);
        RepeatOne(colour, count - run);
        now := now + [colour];
        run := run - 1;
      }
    }

    /** The pixels of a raw packet, read one by one. */
    method PutRaw(f: File, x: nat, y: nat, c: Cursor, start: nat, count: nat, ghost was: Canvas, ghost drawn: seq<nat>)
      returns (c': Cursor, a: nat)
      requires Valid() && At(f, |drawn|, c) && Shown() == Draw(was, Laid(f, x, y, drawn))
      modifies pixels
      ensures At(f, |drawn| + count, c') && Shown() == Draw(was, Laid(f, x, y, drawn + RawColours(f, start, count)))
      ensures a == Past(f, start, count)
    {
      hide At, Laid, Draw, RawColours, Past;
      c', a := c, start;
      var run := count;
      ghost var now := drawn;
      RawNone(f, start);
      while run > 0
        invariant 0 <= run <= count && Past(f, a, run) == Past(f, start, count)
        invariant |now| == |drawn| + count - run && now + RawColours(f, a, run) == drawn + RawColours(f, start, count)
        invariant At(f, |now|, c') && Shown() == Draw(was, Laid(f, x, y, now))
      {
        var colour := Fetch(f, a);
        c' := PutNext(f, x, y, c', colour, was, now);
        RawOne(f, a, run);
        Regroup(now, colour, RawColours(f, a + f.PixelSize(), run - 1));
        now := now + [colour];
        a, run := a + f.PixelSize(), run - 1;
      }
      RawNone(f, a);
      assert now + [] == now;
    }

    /** One packet of either kind. */
    method PutPacket(f: File, x: nat, y: nat, c: Cursor, start: nat, ghost was: Canvas, ghost drawn: seq<nat>)
      returns (c': Cursor, a: nat)
      requires Valid() && At(f, |drawn|, c) && Shown() == Draw(was, Laid(f, x, y, drawn))
      modifies pixels
      ensures At(f, |drawn| + PacketCount(f, start), c')
      ensures Shown() == Draw(was, Laid(f, x, y, drawn + PacketColours(f, start)))
      ensures a == PacketEnd(f, start)
    {
      hide At, Laid, Draw, PacketColours, PacketEnd, PacketCount, Past, Repeat, RawColours;
      PacketIs(f, start);
      var count := f.memory(start) % 128 + 1;
      if f.memory(start) >= 128 {
        var colour := Fetch(f, start + 1);
        a := start + 1 + f.PixelSize();
        c' := PutRun(f, x, y, c, colour, count, was, drawn);
      } else {
        c', a := PutRaw(f, x, y, c, start + 1, count, was, drawn);
      }
    }

    /** Image types 9 and 10: packets until the last row has been completed, whatever the stream holds. */
    method DrawRunLength(f: File, x: nat, y: nat)
      requires Valid()
      modifies pixels
      ensures Shown() == Draw(old(Shown()), RunDots(f, x, y))
    {
      hide *;
      ghost var was := Shown();
      var a: nat := f.ImageStart();
      var c := Cursor(0, if f.TopLeft() then 0 else f.Height(), false);
      ghost var drawn: seq<nat> := [];
      AtStart(f);
      LaidNone(f, x, y, was);
      while !c.end
        invariant At(f, |drawn|, c) && Shown() == Draw(was, Laid(f, x, y, drawn))
        invariant drawn + Expand(f, a, Enough(f) - |drawn|) == Expand(f, f.ImageStart(), Enough(f))
        decreases Enough(f) - |drawn|
      {
        EndAt(f, |drawn|, c);
        ExpandOne(f, a, Enough(f) - |drawn|);
        ghost var packet := PacketColours(f, a);
        RegroupAll(drawn, packet, Expand(f, PacketEnd(f, a), Enough(f) - |drawn| - |packet|));
        c, a := PutPacket(f, x, y, c, a, was, drawn);
        drawn := drawn + packet;
      }
      EndAt(f, |drawn|, c);
      ExpandNone(f, a, Enough(f) - |drawn|);
      assert drawn + [] == drawn;
      RunDotsAre(f, x, y);
    }

    /** One row of the plain loop. */
    method DrawPlainRow(f: File, x: nat, y: nat, i: nat, first: nat, ghost was: Canvas) returns (pixelNumber: nat)
      requires Valid() && i < f.Height() && first == RowStart(f, i)
      requires Shown() == Draw(was, PlainDots(f, x, y, Turn(f, i, 0)))
      modifies pixels
      ensures pixelNumber == first + f.Width()
      ensures Shown() == Draw(was, PlainDots(f, x, y, Turn(f, i, f.Width())))
    {
      hide Draw, PlainDots, PlainDot, Turn, RowStart;
      pixelNumber := first;
      var j := 0;
      while j < f.Width()
        invariant 0 <= j <= f.Width() && pixelNumber == first + j
        invariant Shown() == Draw(was, PlainDots(f, x, y, Turn(f, i, j)))
      {
        PlainTurn(f, x, y, i, j);
        DrawOne(was, PlainDots(f, x, y, Turn(f, i, j)), PlainDot(f, x, y, Turn(f, i, j)));
        var colour := Fetch(f, f.ImageStart() + pixelNumber * f.PixelSize() % U32);
        var _ := PutPixel((j + x) % U16, (i + y) % U16, colour);
        pixelNumber := (pixelNumber + 1) % U32;
        j := j + 1;
      }
    }

    /** Image types 1 and 2: rows down the screen, taken from the file's last row up for a bottom-left origin. */
    method DrawPlain(f: File, x: nat, y: nat)
      requires Valid()
      modifies pixels
      ensures Shown() == Draw(old(Shown()), PlainDots(f, x, y, f.Width() * f.Height()))
    {
      hide Draw, PlainDots, Turn, RowStart;
      ghost var was := Shown();
      var w, h := f.Width(), f.Height();
      FirstRow(f);
      var pixelNumber: nat := if f.TopLeft() then 0 else w * (h - 1) % U32;
      var i := 0;
      PlainNone(f, x, y, was);
      while i < h
        invariant 0 <= i <= h
        invariant i < h ==> pixelNumber == RowStart(f, i)
        invariant Shown() == Draw(was, PlainDots(f, x, y, Turn(f, i, 0)))
      {
        pixelNumber := DrawPlainRow(f, x, y, i, pixelNumber, was);
        if !f.TopLeft() {
          pixelNumber := (pixelNumber - w * 2) % U32;
        }
        NextRow(f, i);
        i := i + 1;
      }
      LastRow(f);
    }

    /** Draws the file with its corner at (x, y) if its type is supported, and says whether it did. */
    method PutTarga(f: File, x: nat, y: nat) returns (ok: bool)
      requires Valid()
      modifies pixels
      ensures ok <==> f.Supported()
      ensures ok && f.Plain() ==> Shown() == Draw(old(Shown()), PlainDots(f, x, y, f.Width() * f.Height()))
      ensures ok && f.RunLength() ==> Shown() == Draw(old(Shown()), RunDots(f, x, y))
      ensures !ok ==> Shown() == old(Shown())
    {
      hide Draw, PlainDots, RunDots, Shown;
      match f.ImageType() {
        case 1 =>
          if f.MapType() == 0 || f.MapEntrySize() == 16 {
            return false;
          }
          DrawPlain(f, x, y);
        case 2 =>
          if f.BitsPerPixel() == 16 {
            return false;
          }
          DrawPlain(f, x, y);
        case 9 =>
          if f.MapType() == 0 || f.MapEntrySize() == 16 {
            return false;
          }
          DrawRunLength(f, x, y);
        case 10 =>
          if f.BitsPerPixel() == 16 {
            return false;
          }
          DrawRunLength(f, x, y);
        case _ =>
          return false;
      }
      return true;
    }

    lemma IndexApart(x: nat, y: nat, x': nat, y': nat)
      requires Valid() && x < width && y < height && x' < width && y' < height && (x, y) != (x', y')
      ensures Index(x, y) != Index(x', y')
    {
      RowColumn(width, y, x);
      RowColumn(width, y', x');
    }
  }

  lemma IndexSpace(width: nat, height: nat)
    ensures width * height >= 0
  {
  }

  // ----- Steps of the two loops -----

  lemma LaidNone(f: File, x: nat, y: nat, c: Canvas)
    ensures Draw(c, Laid(f, x, y, [])) == c
  {
  }

  lemma LaidOne(f: File, x: nat, y: nat, drawn: seq<nat>, colour: nat)
    ensures Laid(f, x, y, drawn + [colour]) == Laid(f, x, y, drawn) + [RunDot(f, x, y, |drawn|, colour)]
  {
    hide RunDot;
  }

  lemma RepeatNone<T>(v: T)
    ensures Repeat(v, 0) == []
  {
  }

  lemma RepeatOne<T>(v: T, n: nat)
    ensures Repeat(v, n + 1) == Repeat(v, n) + [v]
  {
    hide Repeat;
  }

  /** The address after n stored pixels. */
  ghost function Past(f: File, a: nat, n: nat): nat {
    a + n * f.PixelSize()
  }

  lemma Regroup<T>(front: seq<T>, v: T, back: seq<T>)
    ensures front + ([v] + back) == front + [v] + back
  {
  }

  lemma RawNone(f: File, a: nat)
    ensures RawColours(f, a, 0) == [] && Past(f, a, 0) == a
  {
  }

  lemma RawOne(f: File, a: nat, n: nat)
    requires n > 0
    ensures RawColours(f, a, n) == [f.ColourAt(a)] + RawColours(f, a + f.PixelSize(), n - 1)
    ensures Past(f, a, n) == Past(f, a + f.PixelSize(), n - 1)
  {
  }

  lemma EndAt(f: File, n: nat, c: Cursor)
    requires At(f, n, c)
    ensures c.end <==> n >= Enough(f)
  {
  }

  lemma ExpandOne(f: File, a: nat, n: int)
    requires n > 0
    ensures PacketCount(f, a) > 0
    ensures Expand(f, a, n) == PacketColours(f, a) + Expand(f, PacketEnd(f, a), n - PacketCount(f, a))
  {
  }

  lemma ExpandNone(f: File, a: nat, n: int)
    requires n <= 0
    ensures Expand(f, a, n) == []
  {
  }

  lemma RegroupAll<T>(front: seq<T>, middle: seq<T>, back: seq<T>)
    ensures front + (middle + back) == front + middle + back
  {
  }

  lemma PacketIs(f: File, a: nat)
    ensures PacketCount(f, a) == f.memory(a) % 128 + 1
    ensures f.memory(a) >= 128 ==>
      PacketColours(f, a) == Repeat(f.ColourAt(a + 1), PacketCount(f, a)) && PacketEnd(f, a) == a + 1 + f.PixelSize()
    ensures f.memory(a) < 128 ==>
      && PacketColours(f, a) == RawColours(f, a + 1, PacketCount(f, a))
      && PacketEnd(f, a) == Past(f, a + 1, PacketCount(f, a))
  {
  }

  /** How many pixels the plain loops have drawn. */
  ghost function Turn(f: File, i: nat, j: nat): (t: nat)
    ensures t > 0 ==> f.Width() > 0 || j > 0
  {
    Times(f.Width(), 0, i);
    i * f.Width() + j
  }

  /** The file pixel a row of the plain loop starts with. */
  ghost function RowStart(f: File, i: int): int {
    Source(f, i, 0)
  }

  lemma RowInImage(f: File, i: nat)
    requires i < f.Height()
    ensures 0 <= RowStart(f, i) && RowStart(f, i) + f.Width() <= f.Width() * f.Height() < U32
  {
    var w, h := f.Width(), f.Height();
    AreaFits(f);
    var r := if f.TopLeft() then i else h - 1 - i;
    Times(w, 0, r);
    Times(w, r + 1, h);
  }

  lemma PlainNone(f: File, x: nat, y: nat, c: Canvas)
    ensures Draw(c, PlainDots(f, x, y, 0)) == c
  {
  }

  lemma FirstRow(f: File)
    ensures Turn(f, 0, 0) == 0
    ensures f.Height() > 0 ==> RowStart(f, 0) == if f.TopLeft() then 0 else f.Width() * (f.Height() - 1) % U32
  {
    if f.Height() > 0 {
      RowInImage(f, 0);
    }
  }

  lemma RowStartNext(f: File, i: int)
    ensures f.TopLeft() ==> RowStart(f, i + 1) == RowStart(f, i) + f.Width()
    ensures !f.TopLeft() ==> RowStart(f, i + 1) == RowStart(f, i) - f.Width()
  {
  }

  lemma LastRow(f: File)
    ensures Turn(f, f.Height(), 0) == f.Width() * f.Height()
  {
  }

  lemma NextRow(f: File, i: nat)
    requires i < f.Height()
    ensures Turn(f, i, f.Width()) == Turn(f, i + 1, 0)
    ensures i + 1 < f.Height() && f.TopLeft() ==> RowStart(f, i + 1) == RowStart(f, i) + f.Width()
    ensures i + 1 < f.Height() && !f.TopLeft() ==>
      RowStart(f, i + 1) == (RowStart(f, i) + f.Width() - f.Width() * 2) % U32
  {
    if i + 1 < f.Height() {
      RowInImage(f, i + 1);
      RowStartNext(f, i);
    }
  }

  lemma TurnPlace(f: File, i: nat, j: nat)
    requires i < f.Height() && j < f.Width()
    ensures Row(f.Width(), Turn(f, i, j)) == i && Column(f.Width(), Turn(f, i, j)) == j
    ensures FilePixel(f, Turn(f, i, j)) == RowStart(f, i) + j
  {
    hide Row, Column;
    RowColumn(f.Width(), i, j);
  }

  /** One turn of the inner loop of the plain decoder. */
  lemma PlainTurn(f: File, x: nat, y: nat, i: nat, j: nat)
    requires i < f.Height() && j < f.Width()
    ensures Turn(f, i, j + 1) == Turn(f, i, j) + 1 && 0 <= RowStart(f, i) + j < U32 - 1
    ensures PlainDots(f, x, y, Turn(f, i, j + 1))
      == PlainDots(f, x, y, Turn(f, i, j)) + [PlainDot(f, x, y, Turn(f, i, j))]
    ensures PlainDot(f, x, y, Turn(f, i, j))
      == Dot((j + x) % U16, (i + y) % U16, f.ColourAt(f.ImageStart() + (RowStart(f, i) + j) * f.PixelSize() % U32))
  {
    hide Row, Column, Turn, RowStart, FilePixel, PlainDots;
    RowInImage(f, i);
    TurnPlace(f, i, j);
    TurnOn(f, i, j);
    AreaFits(f);
    PlainDotsOne(f, x, y, Turn(f, i, j));
  }

  lemma PlainDotsOne(f: File, x: nat, y: nat, n: nat)
    requires f.Width() > 0
    ensures PlainDots(f, x, y, n + 1) == PlainDots(f, x, y, n) + [PlainDot(f, x, y, n)]
  {
    hide PlainDot;
  }

  lemma TurnOn(f: File, i: nat, j: nat)
    ensures Turn(f, i, j + 1) == Turn(f, i, j) + 1
  {
  }
}
