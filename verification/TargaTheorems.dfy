/** The run-length decoder draws what the plain decoder draws on the expanded pixels. */
module TargaTheorems {
  import opened Machine
  import opened Drawing
  import opened TargaSpec

  // ----- Rows and columns -----

  /** A row and a column determine the number of a pixel and are determined by it. */
  lemma RowColumn(w: nat, r: nat, x: nat)
    requires x < w
    ensures r * w + x >= 0 && Row(w, r * w + x) == r && Column(w, r * w + x) == x
  {
    QuotientRemainder(w, r, x);
  }

  lemma RowsBelow(w: nat, h: nat, t: nat)
    requires w > 0
    ensures t == Row(w, t) * w + Column(w, t)
    ensures t < w * h <==> Row(w, t) < h
  {
    if t / w < h {
      Times(w, t / w + 1, h);
    } else {
      Times(w, h, t / w);
    }
  }

  lemma MirrorTwice(w: nat, h: nat, t: nat)
    requires w > 0 && t < w * h
    ensures 0 <= Mirror(w, h, t) < w * h && Mirror(w, h, Mirror(w, h, t)) == t
    ensures Row(w, Mirror(w, h, t)) == h - 1 - Row(w, t) && Column(w, Mirror(w, h, t)) == Column(w, t)
  {
    hide Row, Column;
    RowsBelow(w, h, t);
    RowColumn(w, h - 1 - Row(w, t), Column(w, t));
    RowsBelow(w, h, Mirror(w, h, t));
  }

  // ----- Wide reads -----

  lemma ReadOne(f: File, a: nat)
    ensures LittleEndian(Read(f.memory, a, 1)) == f.Word(a) % 256
  {
  }

  lemma ReadTwo(f: File, a: nat)
    ensures LittleEndian(Read(f.memory, a, 2)) == f.Word(a)
  {
    var s := Read(f.memory, a, 2);
    assert LittleEndian(s[1..]) == s[1];
  }

  lemma ReadFour(f: File, a: nat)
    ensures LittleEndian(Read(f.memory, a, 4)) == f.DoubleWord(a)
  {
    var s := Read(f.memory, a, 4);
    assert s[1..][1..] == s[2..] && s[2..][1..] == s[3..] && s[3..][1..] == [];
    assert LittleEndian(s[3..]) == s[3];
    assert LittleEndian(s[2..]) == f.Word(a + 2);
  }

  /** Three bytes are four with the high one masked off. */
  lemma ReadThree(f: File, a: nat)
    ensures LittleEndian(Read(f.memory, a, 3)) == f.DoubleWord(a) % 0x100_0000
  {
    var s := Read(f.memory, a, 3);
    assert s[1..][1..] == s[2..] && s[2..][1..] == [];
    assert LittleEndian(s[2..]) == s[2];
    assert f.Word(a + 2) == s[2] + 256 * f.memory(a + 3);
    assert f.DoubleWord(a) == s[0] + 256 * s[1] + 0x1_0000 * s[2] + 0x100_0000 * f.memory(a + 3);
  }

  // ----- Dots lie apart -----

  /** Adding an offset and cutting to 16 bits keeps numbers that fit in 16 bits apart. */
  lemma ShiftApart(a: int, b: int, o: int)
    requires 0 <= a < U16 && 0 <= b < U16 && Shifted(a, o) == Shifted(b, o)
    ensures a == b
  {
    assert (a - b) % U16 == 0;
  }

  lemma PlacesApart(w: nat, h: nat, x: int, y: int, s: nat, t: nat)
    requires 0 < w < U16 && h < U16 && s < w * h && t < w * h
    requires Shifted(Column(w, s), x) == Shifted(Column(w, t), x) && Shifted(Row(w, s), y) == Shifted(Row(w, t), y)
    ensures s == t
  {
    hide Row, Column, Shifted;
    RowsBelow(w, h, s);
    RowsBelow(w, h, t);
    ShiftApart(Column(w, s), Column(w, t), x);
    ShiftApart(Row(w, s), Row(w, t), y);
  }

  lemma WordFits(f: File, a: nat)
    ensures f.Word(a) < U16
  {
  }

  /** Pixel numbers of an image fit in 32 bits. */
  lemma AreaFits(f: File)
    ensures f.Width() * f.Height() < U32
  {
    var w, h := f.Width(), f.Height();
    WordFits(f, f.start + 12);
    WordFits(f, f.start + 14);
    Times(w, h, U16 - 1);
    Times(U16 - 1, w, U16 - 1);
  }

  lemma PlainApart(f: File, x: nat, y: nat)
    requires f.Width() > 0
    ensures Apart(PlainDots(f, x, y, f.Width() * f.Height()))
  {
    var w, h := f.Width(), f.Height();
    WordFits(f, f.start + 12);
    WordFits(f, f.start + 14);
    var d := PlainDots(f, x, y, w * h);
    hide PlainDots, PlainColour, Row, Column, Shifted;
    forall s, t | 0 <= s < t < |d| ensures d[s].x != d[t].x || d[s].y != d[t].y {
      if d[s].x == d[t].x && d[s].y == d[t].y {
        PlacesApart(w, h, x, y, s, t);
      }
    }
  }

  /** The file pixel shown at column j of row i: from the file's last row up for a bottom-left origin. */
  function Source(f: File, i: int, j: int): int {
    (if f.TopLeft() then i else f.Height() - 1 - i) * f.Width() + j
  }

  /** What the plain decoder leaves: each file pixel at its place, and everything else as it was. */
  lemma PlainShows(c: Canvas, f: File, x: nat, y: nat, i: nat, j: nat)
    requires i < f.Height() && j < f.Width() && (Shifted(j, x), Shifted(i, y)) in c
    ensures Draw(c, PlainDots(f, x, y, f.Width() * f.Height()))[(Shifted(j, x), Shifted(i, y))]
      == PlainColour(f, Source(f, i, j))
  {
    hide PlainDots, PlainColour, Row, Column, Shifted, Draw;
    var w, h := f.Width(), f.Height();
    RowColumn(w, i, j);
    RowsBelow(w, h, i * w + j);
    PlainApart(f, x, y);
    DrawHit(c, PlainDots(f, x, y, w * h), i * w + j);
  }

  lemma PlainSpares(c: Canvas, f: File, x: nat, y: nat, p: (int, int))
    requires f.Width() > 0 && p in c
    requires forall i: nat, j: nat :: i < f.Height() && j < f.Width() ==> p != (Shifted(j, x), Shifted(i, y))
    ensures Draw(c, PlainDots(f, x, y, f.Width() * f.Height()))[p] == c[p]
  {
    hide PlainDots, PlainColour, Row, Column, Shifted, Draw;
    var w, h := f.Width(), f.Height();
    var d := PlainDots(f, x, y, w * h);
    forall t | 0 <= t < |d| ensures (d[t].x, d[t].y) != p {
      RowsBelow(w, h, t);
    }
    DrawMissed(c, d, p);
  }

  /** Dots that are those of another drawing in another order draw the same. */
  lemma ReorderedDraw(c: Canvas, d: seq<Dot>, e: seq<Dot>, turn: nat -> int)
    requires Apart(e) && |d| == |e|
    requires forall n {:trigger turn(n)} :: 0 <= n < |d| ==>
      0 <= turn(n) < |d| && turn(turn(n)) == n && d[n] == e[turn(n)]
    ensures Draw(c, d) == Draw(c, e)
  {
    forall i, j | 0 <= i < j < |d| ensures d[i].x != d[j].x || d[i].y != d[j].y {
      assert turn(turn(i)) == i && turn(turn(j)) == j;
      assert turn(i) != turn(j);
    }
    forall i | 0 <= i < |e| ensures e[i] in d {
      var n := turn(i);
      assert turn(n) == i && d[n] == e[i];
    }
    forall i | 0 <= i < |d| ensures d[i] in e {
      var n := turn(i);
      assert d[i] == e[n];
    }
    OrderIrrelevant(c, d, e);
  }

  // ----- The two decoders -----

  /** One row lower for a bottom-left origin: the row counter starts at the height. */
  function Lowered(f: File, y: nat): nat {
    if f.TopLeft() then y else (y + 1) % U16
  }

  /** The same size and origin, and colours that come out the same in file order. */
  ghost predicate SamePicture(f: File, g: File, colours: seq<nat>) {
    && f.Width() == g.Width() > 0
    && f.Height() == g.Height() > 0
    && f.TopLeft() == g.TopLeft()
    && |colours| == f.Width() * f.Height()
    && (forall n :: 0 <= n < |colours| ==> colours[n] == PlainColour(f, n))
  }

  /** The row of the screen on which the run-length decoder puts row r of the file, counted from the lowered corner. */
  function ScreenRow(g: File, r: int): int {
    if g.TopLeft() then r else g.Height() - 1 - r
  }

  /** Where the run-length decoder puts pixel n of an image. */
  lemma RunDotPlace(g: File, x: nat, y: nat, n: nat, colour: nat)
    requires g.Width() > 0 && g.Height() > 0 && n < g.Width() * g.Height()
    ensures var w := g.Width();
      && Row(w, n) < g.Height()
      && RunDot(g, x, y, n, colour)
        == Dot(Shifted(Column(w, n), x), Shifted(ScreenRow(g, Row(w, n)), Lowered(g, y)), colour)
  {
    hide Row, Column, Shifted;
    var w, h := g.Width(), g.Height();
    WordFits(g, g.start + 14);
    RowsBelow(w, h, n);
    if g.TopLeft() {
      CounterUp(g, Row(w, n));
    } else {
      CounterDown(g, Row(w, n));
      ShiftLowered(h - 1 - Row(w, n), y);
    }
  }

  lemma RunDotIsPlainDot(f: File, g: File, x: nat, y: nat, n: nat, colour: nat)
    requires f.Width() == g.Width() > 0 && f.Height() == g.Height() > 0 && f.TopLeft() == g.TopLeft()
    requires n < f.Width() * f.Height() && colour == PlainColour(f, n)
    ensures FilePixel(f, n) >= 0
    ensures RunDot(g, x, y, n, colour) == PlainDot(f, x, Lowered(f, y), FilePixel(f, n))
  {
    hide PlainColour, Mirror, Row, Column, Shifted, RunDot;
    MirrorTwice(f.Width(), f.Height(), n);
    RunDotPlace(g, x, y, n, colour);
  }

  lemma RunDotsAre(f: File, x: nat, y: nat)
    ensures RunDots(f, x, y) == Laid(f, x, y, Expand(f, f.ImageStart(), Enough(f)))
  {
  }

  lemma LaidApart(g: File, x: nat, y: nat, colours: seq<nat>)
    requires g.Width() > 0 && g.Height() > 0 && |colours| == g.Width() * g.Height()
    ensures Apart(Laid(g, x, y, colours))
  {
    var w, h, d := g.Width(), g.Height(), Laid(g, x, y, colours);
    WordFits(g, g.start + 12);
    WordFits(g, g.start + 14);
    hide Laid, RunDot, Row, Column, Shifted, Lowered;
    forall s, t | 0 <= s < t < |d| ensures d[s].x != d[t].x || d[s].y != d[t].y {
      RunDotPlace(g, x, y, s, colours[s]);
      RunDotPlace(g, x, y, t, colours[t]);
      if d[s].x == d[t].x && d[s].y == d[t].y {
        ShiftApart(ScreenRow(g, Row(w, s)), ScreenRow(g, Row(w, t)), Lowered(g, y));
        PlacesApart(w, h, x, y, s, t);
      }
    }
  }

  /**
   What the run-length decoder leaves for an image: each file pixel at its place, a row lower for a bottom-left origin.
   */
  lemma LaidShows(c: Canvas, g: File, x: nat, y: nat, colours: seq<nat>, i: nat, j: nat)
    requires i < g.Height() && j < g.Width() && |colours| == g.Width() * g.Height()
    requires (Shifted(j, x), Shifted(i, Lowered(g, y))) in c
    ensures 0 <= Source(g, i, j) < |colours|
    ensures Draw(c, Laid(g, x, y, colours))[(Shifted(j, x), Shifted(i, Lowered(g, y)))] == colours[Source(g, i, j)]
  {
    hide Laid, RunDot, Row, Column, Shifted, Lowered, Draw;
    var w, h := g.Width(), g.Height();
    var r := ScreenRow(g, i);
    RowColumn(w, r, j);
    var n := Source(g, i, j);
    RowsBelow(w, h, n);
    RunDotPlace(g, x, y, n, colours[n]);
    LaidApart(g, x, y, colours);
    DrawHit(c, Laid(g, x, y, colours), n);
  }

  lemma CounterUp(g: File, r: nat)
    requires g.TopLeft() && r < U16
    ensures RowCounter(g, r) == r
  {
  }

  lemma CounterDown(g: File, r: nat)
    requires !g.TopLeft() && r <= g.Height() < U16
    ensures RowCounter(g, r) == g.Height() - r
  {
  }

  lemma ShiftLowered(a: int, y: int)
    ensures Shifted(a, (y + 1) % U16) == Shifted(a + 1, y)
  {
  }

  lemma RunLengthMatchesPlain(c: Canvas, f: File, g: File, x: nat, y: nat, colours: seq<nat>)
    requires SamePicture(f, g, colours)
    ensures Draw(c, Laid(g, x, y, colours)) == Draw(c, PlainDots(f, x, Lowered(f, y), |colours|))
  {
    hide Laid, PlainDots, Lowered, PlainColour, RunDot, PlainDot, Mirror;
    var w, h := f.Width(), f.Height();
    var d, e := Laid(g, x, y, colours), PlainDots(f, x, Lowered(f, y), |colours|);
    PlainApart(f, x, Lowered(f, y));
    var turn := (n: nat) => FilePixel(f, n);
    forall n {:trigger turn(n)} | 0 <= n < |d| ensures 0 <= turn(n) < |d| && turn(turn(n)) == n && d[n] == e[turn(n)] {
      MirrorTwice(w, h, n);
      RunDotIsPlainDot(f, g, x, y, n, colours[n]);
    }
    ReorderedDraw(c, d, e, turn);
  }
}
