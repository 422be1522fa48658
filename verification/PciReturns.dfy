/** The recursion of enumeration returns exactly on buses from which no route meets a bus twice. */
module PciReturns {
  import opened Machine
  import opened Lists
  import opened PciSpec

  // ----- The recursion, cut off at a depth -----

  /** What _enumerate_bus appends from one place on with at most `depth` further calls nested; None if it needs more. */
  ghost function Walk(c: Config, depth: nat, bus: Byte, place: int): Option<seq<Function>>
    requires 0 <= place <= PLACES
    decreases depth, PLACES - place
  {
    if place == PLACES then Some([])
    else Both(Visit(c, depth, At(bus, place)), Walk(c, depth, bus, place + 1))
  }

  ghost function Visit(c: Config, depth: nat, f: Function): Option<seq<Function>>
    decreases depth, 0
  {
    if !Visible(c, f) then Some([])
    else if !Bridge(c, f) then Some([f])
    else if depth == 0 then None
    else Walk(c, depth - 1, Secondary(c, f), 0)
  }

  function Both<T>(a: Option<seq<T>>, b: Option<seq<T>>): Option<seq<T>> {
    if a.Some? && b.Some? then Some(a.value + b.value) else None
  }

  /** At some depth of nesting the call is over. */
  ghost predicate Returns(c: Config, bus: Byte) {
    exists depth: nat :: Walk(c, depth, bus, 0).Some?
  }

  // ----- Routes of bridges -----

  ghost predicate BridgeRoute(c: Config, bus: Byte, q: seq<Function>) {
    Route(c, bus, q) && Bridge(c, Last(q))
  }

  /** A call is cut off exactly when a route of bridges from here on is longer than the depth allows. */
  ghost predicate TooDeep(c: Config, depth: nat, bus: Byte, place: int) {
    exists q: seq<Function> :: BridgeRoute(c, bus, q) && |q| == depth + 1 && q[0].Place() >= place
  }

  ghost predicate TooDeepThrough(c: Config, depth: nat, f: Function) {
    exists q: seq<Function> :: BridgeRoute(c, f.bus, q) && |q| == depth + 1 && q[0] == f
  }

  lemma {:induction false} WalkNoneIff(c: Config, depth: nat, bus: Byte, place: int)
    requires 0 <= place <= PLACES
    ensures Walk(c, depth, bus, place) == None <==> TooDeep(c, depth, bus, place)
    decreases depth, PLACES - place
  {
    hide Visit, BridgeRoute;
    if place < PLACES {
      VisitNoneIff(c, depth, At(bus, place));
      WalkNoneIff(c, depth, bus, place + 1);
      TooDeepFrom(c, depth, bus, place);
    } else if TooDeep(c, depth, bus, place) {
      var q: seq<Function> :| BridgeRoute(c, bus, q) && |q| == depth + 1 && q[0].Place() >= place;
      BridgeRouteHead(c, bus, q);
    }
  }

  lemma BridgeRouteHead(c: Config, bus: Byte, q: seq<Function>)
    requires BridgeRoute(c, bus, q)
    ensures |q| > 0 && q[0].bus == bus && 0 <= q[0].Place() < PLACES && q[0].number < FUNCTIONS
  {
    PlaceInRange(c, q[0]);
  }

  lemma TooDeepFrom(c: Config, depth: nat, bus: Byte, place: int)
    requires 0 <= place < PLACES
    ensures TooDeep(c, depth, bus, place)
      <==> TooDeepThrough(c, depth, At(bus, place)) || TooDeep(c, depth, bus, place + 1)
  {
    hide BridgeRoute, At;
    if TooDeep(c, depth, bus, place) {
      var q: seq<Function> :| BridgeRoute(c, bus, q) && |q| == depth + 1 && q[0].Place() >= place;
      BridgeRouteHead(c, bus, q);
      if q[0].Place() == place {
        SamePlace(At(bus, place), q[0]);
        assert TooDeepThrough(c, depth, At(bus, place));
      }
    }
    if TooDeepThrough(c, depth, At(bus, place)) {
      var q: seq<Function> :| BridgeRoute(c, bus, q) && |q| == depth + 1 && q[0] == At(bus, place);
      assert q[0].Place() >= place;
    }
  }

  lemma {:induction false} VisitNoneIff(c: Config, depth: nat, f: Function)
    ensures Visit(c, depth, f) == None <==> TooDeepThrough(c, depth, f)
    decreases depth, 0
  {
    if Visible(c, f) && Bridge(c, f) {
      if depth == 0 {
        RouteOne(c, f);
        assert BridgeRoute(c, f.bus, [f]) && [f][0] == f;
      } else {
        WalkNoneIff(c, depth - 1, Secondary(c, f), 0);
        DeeperThrough(c, depth, f);
      }
    } else {
      hide Walk;
      forall q: seq<Function> | BridgeRoute(c, f.bus, q) && |q| == depth + 1 ensures q[0] != f {
        BridgesAll(c, f.bus, q, 0);
      }
    }
  }

  lemma BridgesAll(c: Config, bus: Byte, q: seq<Function>, i: nat)
    requires BridgeRoute(c, bus, q) && i < |q|
    ensures Visible(c, q[i]) && Bridge(c, q[i])
  {
    hide Visible, Bridge, Secondary;
    assert i < |q| - 1 ==> Leads(c, q, i);
  }

  lemma DeeperThrough(c: Config, depth: nat, f: Function)
    requires depth > 0 && Visible(c, f) && Bridge(c, f)
    ensures TooDeepThrough(c, depth, f) <==> TooDeep(c, depth - 1, Secondary(c, f), 0)
  {
    hide Visible, Bridge, Secondary, Route;
    if TooDeepThrough(c, depth, f) {
      var q: seq<Function> :| BridgeRoute(c, f.bus, q) && |q| == depth + 1 && q[0] == f;
      var tail := q[1..];
      assert q == [f] + tail && Last(q) == Last(tail);
      RouteOn(c, f, tail);
      BridgeRouteHead(c, Secondary(c, f), tail);
    }
    if TooDeep(c, depth - 1, Secondary(c, f), 0) {
      var tail: seq<Function> :| BridgeRoute(c, Secondary(c, f), tail) && |tail| == depth && tail[0].Place() >= 0;
      RouteOn(c, f, tail);
      var q := [f] + tail;
      assert Last(q) == Last(tail) && q[0] == f;
      assert BridgeRoute(c, f.bus, q);
    }
  }

  // ----- Without a loop -----

  /** Without a loop, routes of bridges are no longer than the number of buses behind the first one. */
  lemma {:induction false} BridgeRouteBounded(c: Config, bus: Byte, q: seq<Function>)
    requires LoopFree(c, bus) && BridgeRoute(c, bus, q)
    ensures |q| <= Rank(c, bus)
    decreases |q|
  {
    var f := q[0];
    BridgesAll(c, bus, q, 0);
    RankFalls(c, f);
    hide Visible, Bridge, Secondary, Route, LoopFree, Rank;
    if |q| > 1 {
      var tail := q[1..];
      assert q == [f] + tail && Last(q) == Last(tail);
      RouteOn(c, f, tail);
      RouteHead(c, bus, q);
      BridgeRouteBounded(c, Secondary(c, f), tail);
    } else {
      RouteHead(c, bus, q);
    }
  }

  // ----- Round a loop -----

  /** Step n of a walk that goes on from j - 1 to i for ever. */
  function Around(i: nat, j: nat, n: nat): (k: nat)
    requires i < j
    ensures k < j
  {
    if n == 0 then 0
    else if Around(i, j, n - 1) + 1 == j then i
    else Around(i, j, n - 1) + 1
  }

  /** A loop has routes of bridges of every length. */
  lemma LoopNests(c: Config, bus: Byte, q: seq<Function>, i: nat, j: nat, depth: nat)
    requires Route(c, bus, q) && i < j < |q| && q[i].bus == q[j].bus
    ensures TooDeep(c, depth, bus, 0)
  {
    hide Visible, Bridge, Secondary;
    var p := Round(q, i, j, depth + 1);
    forall n | 0 <= n <= depth ensures Visible(c, p[n]) && Bridge(c, p[n]) {
      assert Leads(c, q, Around(i, j, n));
    }
    forall n | 0 <= n < depth ensures Leads(c, p, n) {
      AroundLeads(c, q, i, j, n);
    }
    assert Route(c, bus, p);
    PlaceInRange(c, p[0]);
    assert BridgeRoute(c, bus, p) && p[0].Place() >= 0;
  }

  /** The first steps of that walk. */
  function Round<T>(q: seq<T>, i: nat, j: nat, length: nat): (p: seq<T>)
    requires i < j <= |q|
    ensures |p| == length && forall n :: 0 <= n < length ==> p[n] == q[Around(i, j, n)]
  {
    if length == 0 then [] else Round(q, i, j, length - 1) + [q[Around(i, j, length - 1)]]
  }

  lemma AroundLeads(c: Config, q: seq<Function>, i: nat, j: nat, n: nat)
    requires i < j < |q| && q[i].bus == q[j].bus && Leads(c, q, Around(i, j, n))
    ensures Secondary(c, q[Around(i, j, n)]) == q[Around(i, j, n + 1)].bus
  {
    hide Bridge, Secondary;
  }

  // ----- Main results -----

  /** Enumeration of a bus returns exactly when no route from it meets a bus twice. */
  lemma ReturnsIff(c: Config, bus: Byte)
    ensures Returns(c, bus) <==> LoopFree(c, bus)
  {
    if LoopFree(c, bus) {
      WalkNoneIff(c, Rank(c, bus), bus, 0);
      hide Walk, BridgeRoute, LoopFree, Rank;
      forall q | BridgeRoute(c, bus, q) ensures |q| <= Rank(c, bus) {
        BridgeRouteBounded(c, bus, q);
      }
      assert Walk(c, Rank(c, bus), bus, 0).Some?;
    } else {
      var q: seq<Function> :| Route(c, bus, q) && !DistinctBuses(q);
      var i, j :| 0 <= i < j < |q| && q[i].bus == q[j].bus;
      hide Walk, Route, TooDeep;
      forall depth: nat ensures Walk(c, depth, bus, 0) == None {
        WalkNoneIff(c, depth, bus, 0);
        LoopNests(c, bus, q, i, j, depth);
      }
    }
  }

  /** Where the recursion returns, it has appended exactly the devices of the bus. */
  lemma {:induction false} WalkIsDevices(c: Config, depth: nat, bus: Byte, place: int)
    requires LoopFree(c, bus) && 0 <= place <= PLACES && Walk(c, depth, bus, place).Some?
    ensures Walk(c, depth, bus, place).value == Devices(c, bus, place)
    decreases depth, PLACES - place
  {
    hide LoopFree, Visit, Appended, ClearBehind, Rank;
    if place < PLACES {
      ClearOnBus(c, At(bus, place));
      VisitIsAppended(c, depth, At(bus, place));
      WalkIsDevices(c, depth, bus, place + 1);
    }
  }

  lemma {:induction false} VisitIsAppended(c: Config, depth: nat, f: Function)
    requires ClearBehind(c, f) && Visit(c, depth, f).Some?
    ensures Visit(c, depth, f).value == Appended(c, f)
    decreases depth, 0
  {
    hide LoopFree, Visible, Bridge, Secondary, Walk, Devices, Rank;
    if Visible(c, f) && Bridge(c, f) {
      WalkIsDevices(c, depth - 1, Secondary(c, f), 0);
    }
  }

  // ----- Rankings, and two configurations -----

  /** A rank for each bus that falls along every bridge reached from the given one. */
  ghost predicate Ranked(c: Config, bus: Byte, rank: Byte -> nat) {
    forall f :: Reachable(c, bus, f) && Bridge(c, f) ==> rank(Secondary(c, f)) < rank(f.bus)
  }

  lemma LastStepFalls(c: Config, bus: Byte, rank: Byte -> nat, q: seq<Function>, n: nat)
    requires Ranked(c, bus, rank) && Route(c, bus, q) && n == |q| - 1 && n > 0
    ensures Route(c, bus, q[..n]) && rank(q[n].bus) < rank(q[n - 1].bus)
  {
    hide Visible, Bridge, Secondary, Route;
    RouteInit(c, bus, q, n);
    assert Reachable(c, bus, Last(q[..n]));
  }

  lemma {:induction false} RankAlong(c: Config, bus: Byte, rank: Byte -> nat, q: seq<Function>, i: nat, j: nat)
    requires Ranked(c, bus, rank) && Route(c, bus, q) && i < j < |q|
    ensures rank(q[j].bus) < rank(q[i].bus)
    decreases |q|
  {
    hide Ranked, Route;
    var n := |q| - 1;
    LastStepFalls(c, bus, rank, q, n);
    if j < n {
      RankAlong(c, bus, rank, q[..n], i, j);
    } else if i < n - 1 {
      RankAlong(c, bus, rank, q[..n], i, n - 1);
    }
  }

  /** Buses can be ranked so that every bridge leads down exactly when there is no loop. */
  lemma RankedIff(c: Config, bus: Byte)
    ensures (exists rank: Byte -> nat :: Ranked(c, bus, rank)) <==> LoopFree(c, bus)
  {
    if rank: Byte -> nat :| Ranked(c, bus, rank) {
      forall q: seq<Function> | Route(c, bus, q) ensures DistinctBuses(q) {
        forall i, j | 0 <= i < j < |q| ensures q[i].bus != q[j].bus {
          RankAlong(c, bus, rank, q, i, j);
        }
      }
    }
    if LoopFree(c, bus) {
      var rank: Byte -> nat := (b: Byte) => Rank(c, b);
      forall f | Reachable(c, bus, f) && Bridge(c, f) ensures rank(Secondary(c, f)) < rank(f.bus) {
        var q: seq<Function> :| Route(c, bus, q) && Last(q) == f;
        LoopFreeAlong(c, bus, q);
        RankFalls(c, f);
      }
      assert Ranked(c, bus, rank);
    }
  }

  lemma {:induction false} LoopFreeAlong(c: Config, bus: Byte, q: seq<Function>)
    requires LoopFree(c, bus) && Route(c, bus, q)
    ensures LoopFree(c, Last(q).bus) && Visible(c, Last(q))
    decreases |q|
  {
    var n := |q| - 1;
    if n > 0 {
      RouteInit(c, bus, q, n);
      hide Visible, Bridge, Secondary, Route, LoopFree;
      LoopFreeAlong(c, bus, q[..n]);
      RankFalls(c, q[n - 1]);
    }
  }

  /** The usual numbering: every bridge's secondary bus number exceeds its own bus number. */
  ghost predicate NumberedDownwards(c: Config, bus: Byte) {
    forall f :: Reachable(c, bus, f) && Bridge(c, f) ==> f.bus < Secondary(c, f)
  }

  lemma DownwardsLoopFree(c: Config, bus: Byte)
    requires NumberedDownwards(c, bus)
    ensures LoopFree(c, bus)
  {
    assert Ranked(c, bus, (b: Byte) => 255 - b);
    RankedIff(c, bus);
  }

  /** One function in all: a bridge in slot 0 of bus b that leads back to bus b. */
  function SelfLoop(b: Byte): Config {
    var f := Function(b, 0, 0);
    (a: nat) =>
      if a == Address(f, 0) then 0
      else if a == Address(f, 3) then 0x1_0000
      else if a == Address(f, 6) then 0x100 * b
      else 0xFFFF_FFFF
  }

  lemma SelfLoopReads(b: Byte)
    ensures var c, f := SelfLoop(b), Function(b, 0, 0);
      Visible(c, f) && Bridge(c, f) && Secondary(c, f) == b
  {
    var f := Function(b, 0, 0);
    FieldsFit(f, 0);
    FieldsFit(f, 3);
    FieldsFit(f, 6);
    hide Address;
  }

  lemma SelfLoopAlone(b: Byte, g: Function)
    requires g.bus != b
    ensures !Visible(SelfLoop(b), g)
  {
    var f := Function(b, 0, 0);
    if g.slot < SLOTS && g.number < FUNCTIONS {
      FieldsFit(f, 0);
      FieldsFit(f, 3);
      FieldsFit(f, 6);
      FieldsFit(g, 0);
      hide Address;
    }
  }

  /** Enumeration from bus 0 never returns when that bus is bus 0, and does when it is any other. */
  lemma SelfLoopReturnsIff(b: Byte)
    ensures Returns(SelfLoop(b), 0) <==> b != 0
  {
    var c, f := SelfLoop(b), Function(b, 0, 0);
    ReturnsIff(c, 0);
    SelfLoopReads(b);
    hide Visible, Bridge, Secondary, SelfLoop, Returns;
    if b == 0 {
      RouteOne(c, f);
      RouteAppend(c, 0, [f], f);
      var q: seq<Function> := [f] + [f];
      assert q[0].bus == q[1].bus;
      assert Route(c, 0, q) && !DistinctBuses(q);
    } else {
      forall q: seq<Function> ensures !Route(c, 0, q) {
        if Route(c, 0, q) {
          SelfLoopAlone(b, q[0]);
        }
      }
    }
  }
}
