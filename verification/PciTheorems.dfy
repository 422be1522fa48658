/** What enumeration of a bus lists, how often and in which order, and when it returns. */
module PciTheorems {
  import opened Machine
  import opened Lists
  import opened PciSpec

  /** Scan order of routes: by place at the first bus where they part. */
  ghost predicate Before(p: seq<Function>, q: seq<Function>)
    decreases |p|
  {
    |p| > 0 && |q| > 0 && if p[0] == q[0] then Before(p[1..], q[1..]) else p[0].Place() < q[0].Place()
  }

  /** The routes the walk takes, one for each device it appends. */
  ghost function Trails(c: Config, bus: Byte, place: int): seq<seq<Function>>
    requires LoopFree(c, bus) && 0 <= place <= PLACES
    decreases 2 * Rank(c, bus), PLACES - place
  {
    if place == PLACES then []
    else
      ClearOnBus(c, At(bus, place));
      Through(c, At(bus, place)) + Trails(c, bus, place + 1)
  }

  ghost function Through(c: Config, f: Function): seq<seq<Function>>
    requires ClearBehind(c, f)
    decreases Nesting(c, f), 0
  {
    if !Visible(c, f) then []
    else if Bridge(c, f) then Prepend(f, Trails(c, Secondary(c, f), 0))
    else [[f]]
  }

  function Prepend<T>(x: T, s: seq<seq<T>>): (r: seq<seq<T>>)
    ensures |r| == |s| && forall i :: 0 <= i < |s| ==> r[i] == [x] + s[i]
  {
    if s == [] then [] else [[x] + s[0]] + Prepend(x, s[1..])
  }

  ghost predicate EndsAre(devices: seq<Function>, trails: seq<seq<Function>>) {
    |devices| == |trails| && forall i :: 0 <= i < |trails| ==> |trails[i]| > 0 && Last(trails[i]) == devices[i]
  }

  lemma EndsConcat(d: seq<Function>, d': seq<Function>, t: seq<seq<Function>>, t': seq<seq<Function>>)
    requires EndsAre(d, t) && EndsAre(d', t')
    ensures EndsAre(d + d', t + t')
  {
  }

  lemma EndsPrepend(f: Function, d: seq<Function>, t: seq<seq<Function>>)
    requires EndsAre(d, t)
    ensures EndsAre(d, Prepend(f, t))
  {
  }

  /** The devices appended are the ends of the routes walked. */
  lemma {:induction false} DevicesEndTrails(c: Config, bus: Byte, place: int)
    requires LoopFree(c, bus) && 0 <= place <= PLACES
    ensures EndsAre(Devices(c, bus, place), Trails(c, bus, place))
    decreases 2 * Rank(c, bus), PLACES - place
  {
    hide LoopFree, Appended, Through;
    if place < PLACES {
      var f := At(bus, place);
      ClearOnBus(c, f);
      AppendedEndThrough(c, f);
      DevicesEndTrails(c, bus, place + 1);
      EndsConcat(Appended(c, f), Devices(c, bus, place + 1), Through(c, f), Trails(c, bus, place + 1));
    }
  }

  lemma {:induction false} AppendedEndThrough(c: Config, f: Function)
    requires ClearBehind(c, f)
    ensures EndsAre(Appended(c, f), Through(c, f))
    decreases Nesting(c, f), 0
  {
    hide Visible, Bridge, Secondary, Devices, Trails;
    if Visible(c, f) && Bridge(c, f) {
      DevicesEndTrails(c, Secondary(c, f), 0);
      EndsPrepend(f, Devices(c, Secondary(c, f), 0), Trails(c, Secondary(c, f), 0));
    }
  }

  /** The walk from one place takes exactly the trails that start at that place or later. */
  lemma {:induction false} TrailsIff(c: Config, bus: Byte, place: int, q: seq<Function>)
    requires LoopFree(c, bus) && 0 <= place <= PLACES
    ensures q in Trails(c, bus, place) <==> Trail(c, bus, q) && q[0].Place() >= place
    decreases 2 * Rank(c, bus), PLACES - place
  {
    hide LoopFree, Through;
    if place < PLACES {
      var f := At(bus, place);
      ClearOnBus(c, f);
      ThroughIff(c, f, q);
      TrailsIff(c, bus, place + 1, q);
      var here, later := Through(c, f), Trails(c, bus, place + 1);
      assert q in here + later <==> q in here || q in later;
      if Trail(c, bus, q) {
        PlaceInRange(c, q[0]);
        if q[0].Place() == place {
          SamePlace(f, q[0]);
        }
      }
    } else if Trail(c, bus, q) {
      PlaceInRange(c, q[0]);
    }
  }

  lemma PrependHas<T>(x: T, s: seq<seq<T>>, q: seq<T>)
    ensures q in Prepend(x, s) <==> |q| > 0 && q[0] == x && q[1..] in s
  {
    var r := Prepend(x, s);
    if q in r {
      var i :| 0 <= i < |r| && r[i] == q;
      assert q[1..] == s[i];
    }
    if |q| > 0 && q[0] == x && q[1..] in s {
      var i :| 0 <= i < |s| && s[i] == q[1..];
      assert r[i] == q;
    }
  }

  lemma {:induction false} ThroughIff(c: Config, f: Function, q: seq<Function>)
    requires ClearBehind(c, f)
    ensures q in Through(c, f) <==> Trail(c, f.bus, q) && q[0] == f
    decreases Nesting(c, f), 0
  {
    hide Visible, Bridge, Secondary, Trails;
    if Visible(c, f) && Bridge(c, f) {
      PrependHas(f, Trails(c, Secondary(c, f), 0), q);
      if |q| > 0 && q[0] == f {
        var tail := q[1..];
        assert q == [f] + tail;
        TrailsIff(c, Secondary(c, f), 0, tail);
        if tail != [] {
          RouteOn(c, f, tail);
          assert Last(q) == Last(tail);
          if Trail(c, Secondary(c, f), tail) {
            PlaceInRange(c, tail[0]);
          }
        }
      }
    } else if |q| > 0 && q[0] == f {
      if Trail(c, f.bus, q) && |q| > 1 {
        RouteFirst(c, f.bus, q);
      }
      assert |q| == 1 ==> q == [f];
    }
  }

  // ----- Order -----

  ghost predicate Increasing(t: seq<seq<Function>>) {
    forall i, j :: 0 <= i < j < |t| ==> Before(t[i], t[j])
  }

  /** The walk takes its routes in scan order. */
  lemma {:induction false} TrailsIncrease(c: Config, bus: Byte, place: int)
    requires LoopFree(c, bus) && 0 <= place <= PLACES
    ensures Increasing(Trails(c, bus, place))
    decreases 2 * Rank(c, bus), PLACES - place
  {
    hide LoopFree, Through, Before, Trail;
    if place < PLACES {
      var f := At(bus, place);
      ClearOnBus(c, f);
      ThroughIncreases(c, f);
      TrailsIncrease(c, bus, place + 1);
      var here, later := Through(c, f), Trails(c, bus, place + 1);
      forall i, j | 0 <= i < |here| && 0 <= j < |later| ensures Before(here[i], later[j]) {
        var p, q := here[i], later[j];
        assert p in here && q in later;
        ThroughIff(c, f, p);
        TrailsIff(c, bus, place + 1, q);
        TrailNonempty(c, bus, p);
        TrailNonempty(c, bus, q);
        BeforeByPlace(p, q);
      }
      IncreasingConcat(here, later);
    }
  }

  lemma TrailNonempty(c: Config, bus: Byte, q: seq<Function>)
    requires Trail(c, bus, q)
    ensures |q| > 0
  {
  }

  lemma BeforeByPlace(p: seq<Function>, q: seq<Function>)
    requires |p| > 0 && |q| > 0 && p[0].Place() < q[0].Place()
    ensures Before(p, q)
  {
  }

  lemma IncreasingConcat(here: seq<seq<Function>>, later: seq<seq<Function>>)
    requires Increasing(here) && Increasing(later)
    requires forall i, j :: 0 <= i < |here| && 0 <= j < |later| ==> Before(here[i], later[j])
    ensures Increasing(here + later)
  {
    hide Before;
  }

  lemma {:induction false} ThroughIncreases(c: Config, f: Function)
    requires ClearBehind(c, f)
    ensures Increasing(Through(c, f))
    decreases Nesting(c, f), 0
  {
    hide Visible, Bridge, Secondary, Trails, Before;
    if Visible(c, f) && Bridge(c, f) {
      var rest := Trails(c, Secondary(c, f), 0);
      TrailsIncrease(c, Secondary(c, f), 0);
      forall i, j | 0 <= i < j < |rest| ensures Before([f] + rest[i], [f] + rest[j]) {
        BeforeOn(f, rest[i], rest[j]);
      }
    }
  }

  lemma BeforeOn(f: Function, p: seq<Function>, q: seq<Function>)
    requires Before(p, q)
    ensures Before([f] + p, [f] + q)
  {
    assert ([f] + p)[1..] == p && ([f] + q)[1..] == q;
  }

  lemma {:induction false} BeforeStrict(p: seq<Function>)
    ensures !Before(p, p)
  {
    if |p| > 0 {
      BeforeStrict(p[1..]);
    }
  }

  // ----- Main results -----

  /** Among the functions reached from the bus, no two bridges lead to the same bus. */
  ghost predicate SingleParent(c: Config, bus: Byte) {
    forall f, g :: Reachable(c, bus, f) && Reachable(c, bus, g) && SameChild(c, f, g) ==> f == g
  }

  ghost predicate SameChild(c: Config, f: Function, g: Function) {
    Bridge(c, f) && Bridge(c, g) && Secondary(c, f) == Secondary(c, g)
  }

  /** With one parent a bus, a function has only one route. */
  lemma {:induction false} RouteUnique(c: Config, bus: Byte, p: seq<Function>, q: seq<Function>)
    requires LoopFree(c, bus) && SingleParent(c, bus) && Route(c, bus, p) && Route(c, bus, q) && Last(p) == Last(q)
    ensures p == q
    decreases |p|
  {
    var m, n := |p| - 1, |q| - 1;
    assert DistinctBuses(p) && DistinctBuses(q);
    hide Visible, Bridge, Secondary, LoopFree, SingleParent, Route;
    RouteHead(c, bus, p);
    RouteHead(c, bus, q);
    if m > 0 && n > 0 {
      RouteInit(c, bus, p, m);
      RouteInit(c, bus, q, n);
      ParentUnique(c, bus, p[..m], q[..n]);
      RouteUnique(c, bus, p[..m], q[..n]);
      assert p == p[..m] + [p[m]] && q == q[..n] + [q[n]];
    }
  }

  lemma ParentUnique(c: Config, bus: Byte, p: seq<Function>, q: seq<Function>)
    requires SingleParent(c, bus) && Route(c, bus, p) && Route(c, bus, q) && SameChild(c, Last(p), Last(q))
    ensures Last(p) == Last(q)
  {
    RouteHead(c, bus, p);
    RouteHead(c, bus, q);
    hide Route, SameChild;
    assert Reachable(c, bus, Last(p)) && Reachable(c, bus, Last(q));
  }

  /** The list built from a bus holds exactly the reachable functions that are no bridges. */
  lemma EnumeratedIff(c: Config, bus: Byte, f: Function)
    requires LoopFree(c, bus)
    ensures f in Devices(c, bus, 0) <==> Reachable(c, bus, f) && !Bridge(c, f)
  {
    hide LoopFree, Bridge, Visible, Devices, Trails;
    var d, t := Devices(c, bus, 0), Trails(c, bus, 0);
    DevicesEndTrails(c, bus, 0);
    if f in d {
      var i :| 0 <= i < |d| && d[i] == f;
      var q := t[i];
      assert q in t;
      TrailsIff(c, bus, 0, q);
      assert Route(c, bus, q) && Last(q) == f;
    }
    if Reachable(c, bus, f) && !Bridge(c, f) {
      var q :| Route(c, bus, q) && Last(q) == f;
      var i := TrailListed(c, bus, q);
      assert d[i] == f;
    }
  }

  /** Any two ways down to the same device are the same way. */
  ghost predicate SingleTrails(c: Config, bus: Byte) {
    forall p, q :: |p| > 0 && |q| > 0 && Trail(c, bus, p) && Trail(c, bus, q) && Last(p) == Last(q) ==> p == q
  }

  /** The list holds no function twice exactly when there is only one way down to each. */
  lemma EnumeratedOnceIff(c: Config, bus: Byte)
    requires LoopFree(c, bus)
    ensures var d := Devices(c, bus, 0);
      (forall i, j :: 0 <= i < j < |d| ==> d[i] != d[j]) <==> SingleTrails(c, bus)
  {
    hide LoopFree, Trail, Devices, Trails, Before;
    var d, t := Devices(c, bus, 0), Trails(c, bus, 0);
    DevicesEndTrails(c, bus, 0);
    if SingleTrails(c, bus) {
      TrailsIncrease(c, bus, 0);
      forall i, j | 0 <= i < j < |d| ensures d[i] != d[j] {
        var p, q := t[i], t[j];
        assert p in t && q in t;
        TrailsIff(c, bus, 0, p);
        TrailsIff(c, bus, 0, q);
        TrailNonempty(c, bus, p);
        TrailNonempty(c, bus, q);
        assert Before(p, q);
        BeforeStrict(p);
      }
    }
    if forall i, j :: 0 <= i < j < |d| ==> d[i] != d[j] {
      forall p, q | |p| > 0 && |q| > 0 && Trail(c, bus, p) && Trail(c, bus, q) && Last(p) == Last(q) ensures p == q {
        var i := TrailListed(c, bus, p);
        var j := TrailListed(c, bus, q);
        assert d[i] == d[j];
      }
    }
  }

  lemma TrailListed(c: Config, bus: Byte, q: seq<Function>) returns (i: nat)
    requires LoopFree(c, bus) && Trail(c, bus, q)
    ensures i < |Trails(c, bus, 0)| && Trails(c, bus, 0)[i] == q
  {
    hide LoopFree, Devices, Trails;
    PlaceInRange(c, q[0]);
    TrailsIff(c, bus, 0, q);
    var t := Trails(c, bus, 0);
    i :| 0 <= i < |t| && t[i] == q;
  }

  /** One parent a bus is enough for that. */
  lemma SingleParentSingleTrails(c: Config, bus: Byte)
    requires LoopFree(c, bus) && SingleParent(c, bus)
    ensures SingleTrails(c, bus)
  {
    hide LoopFree, SingleParent, Bridge;
    forall p, q | |p| > 0 && |q| > 0 && Trail(c, bus, p) && Trail(c, bus, q) && Last(p) == Last(q) ensures p == q {
      RouteUnique(c, bus, p, q);
    }
  }

  /** The list is in depth-first order: whatever routes lead to two devices, the one scanned first comes first. */
  lemma EnumeratedInOrder(c: Config, bus: Byte, i: nat, j: nat, p: seq<Function>, q: seq<Function>)
    requires LoopFree(c, bus) && SingleParent(c, bus) && i < |Devices(c, bus, 0)| && j < |Devices(c, bus, 0)|
    requires Route(c, bus, p) && Last(p) == Devices(c, bus, 0)[i]
    requires Route(c, bus, q) && Last(q) == Devices(c, bus, 0)[j]
    ensures i < j <==> Before(p, q)
  {
    hide LoopFree, SingleParent, Bridge, Visible, Devices, Trails, Before;
    var t := Trails(c, bus, 0);
    DevicesEndTrails(c, bus, 0);
    TrailsIncrease(c, bus, 0);
    assert t[i] in t && t[j] in t;
    TrailsIff(c, bus, 0, t[i]);
    TrailsIff(c, bus, 0, t[j]);
    RouteUnique(c, bus, p, t[i]);
    RouteUnique(c, bus, q, t[j]);
    BeforeStrict(p);
    if j < i {
      BeforeOneWay(p, q);
    }
  }

  lemma {:induction false} BeforeOneWay(p: seq<Function>, q: seq<Function>)
    ensures !(Before(p, q) && Before(q, p))
    decreases |p|
  {
    if |p| > 0 && |q| > 0 && p[0] == q[0] {
      BeforeOneWay(p[1..], q[1..]);
    }
  }
}
