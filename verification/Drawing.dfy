/** A screen as a map from places to colours, and what a sequence of dots leaves on it. */
module Drawing {
  const U16: int := 0x1_0000

  type Canvas = map<(int, int), int>

  datatype Dot = Dot(x: int, y: int, colour: int)

  /** Dots outside the canvas are clipped. */
  function Put(c: Canvas, d: Dot): (r: Canvas)
    ensures r.Keys == c.Keys
  {
    if (d.x, d.y) in c then c[(d.x, d.y) := d.colour] else c
  }

  function Draw(c: Canvas, dots: seq<Dot>): (r: Canvas)
    ensures r.Keys == c.Keys
  {
    if dots == [] then c else Put(Draw(c, dots[..|dots| - 1]), dots[|dots| - 1])
  }

  lemma DrawOne(c: Canvas, dots: seq<Dot>, d: Dot)
    ensures Draw(c, dots + [d]) == Put(Draw(c, dots), d)
  {
    assert (dots + [d])[..|dots|] == dots;
  }

  ghost predicate Misses(dots: seq<Dot>, p: (int, int)) {
    forall i :: 0 <= i < |dots| ==> (dots[i].x, dots[i].y) != p
  }

  /** No two dots at the same place. */
  ghost predicate Apart(dots: seq<Dot>) {
    forall i, j :: 0 <= i < j < |dots| ==> dots[i].x != dots[j].x || dots[i].y != dots[j].y
  }

  lemma {:induction false} DrawMissed(c: Canvas, dots: seq<Dot>, p: (int, int))
    requires p in c && Misses(dots, p)
    ensures Draw(c, dots)[p] == c[p]
  {
    if dots != [] {
      DrawMissed(c, dots[..|dots| - 1], p);
    }
  }

  lemma {:induction false} DrawHit(c: Canvas, dots: seq<Dot>, i: nat)
    requires i < |dots| && Apart(dots) && (dots[i].x, dots[i].y) in c
    ensures Draw(c, dots)[(dots[i].x, dots[i].y)] == dots[i].colour
  {
    var n := |dots| - 1;
    if i < n {
      DrawHit(c, dots[..n], i);
    }
  }

  /** The order of dots that lie apart does not matter. */
  lemma OrderIrrelevant(c: Canvas, d: seq<Dot>, e: seq<Dot>)
    requires Apart(d) && Apart(e)
    requires forall i :: 0 <= i < |d| ==> d[i] in e
    requires forall i :: 0 <= i < |e| ==> e[i] in d
    ensures Draw(c, d) == Draw(c, e)
  {
    forall p | p in c ensures Draw(c, d)[p] == Draw(c, e)[p] {
      if Misses(d, p) {
        forall j | 0 <= j < |e| ensures (e[j].x, e[j].y) != p {
          var dot := e[j];
          assert dot in d;
        }
        DrawMissed(c, d, p);
        DrawMissed(c, e, p);
      } else {
        var i :| 0 <= i < |d| && (d[i].x, d[i].y) == p;
        var dot := d[i];
        assert dot in e;
        var j :| 0 <= j < |e| && e[j] == dot;
        DrawHit(c, d, i);
        DrawHit(c, e, j);
      }
    }
  }
}
