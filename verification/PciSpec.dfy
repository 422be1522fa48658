/** The PCI configuration space, routes through its bridges, and what enumeration of a bus appends. */
module PciSpec {
  import opened Machine
  import opened Lists

  const SLOTS: int := 32
  const FUNCTIONS: int := 8
  const PLACES: int := 256

  /** One function of one slot of one bus. */
  datatype Function = Function(bus: Byte, slot: Byte, number: Byte) {
    /** Its rank in the order in which a bus is scanned. */
    ghost function Place(): int {
      FUNCTIONS * slot + number
    }
  }

  /** Configuration space: the data register as a function of the address register. */
  type Config = nat -> nat

  /** The address register for one register: slot and function cut to 5 and 3 bits, the byte offset to 8. */
  function Address(f: Function, register: Byte): nat {
    0x8000_0000 + 0x1_0000 * f.bus + 0x800 * (f.slot % SLOTS) + 0x100 * (f.number % FUNCTIONS) + 4 * register % 0x100
  }

  /** The four fields do not run into each other. */
  lemma AddressInjective(f: Function, g: Function, r: Byte, s: Byte)
    requires f.slot < SLOTS && g.slot < SLOTS && f.number < FUNCTIONS && g.number < FUNCTIONS && r < 64 && s < 64
    requires Address(f, r) == Address(g, s)
    ensures f == g && r == s
  {
    FieldsFit(f, r);
    FieldsFit(g, s);
    hide Address;
    assert f.bus == g.bus;
    assert f.slot == g.slot;
    assert f.number == g.number;
  }

  lemma FieldsFit(f: Function, r: Byte)
    requires f.slot < SLOTS && f.number < FUNCTIONS && r < 64
    ensures Address(f, r) == 0x8000_0000 + 0x1_0000 * f.bus + 0x800 * f.slot + 0x100 * f.number + 4 * r
  {
    assert f.slot % SLOTS == f.slot;
    assert f.number % FUNCTIONS == f.number;
    assert 4 * r % 0x100 == 4 * r;
  }

  function Vendor(c: Config, f: Function): nat {
    c(Address(f, 0)) % 0x1_0000
  }

  function HeaderType(c: Config, f: Function): Byte {
    c(Address(f, 3)) / 0x1_0000 % 256
  }

  function Secondary(c: Config, f: Function): Byte {
    c(Address(f, 6)) / 256 % 256
  }

  predicate Present(c: Config, f: Function) {
    Vendor(c, f) != 0xFFFF
  }

  predicate MultiFunction(c: Config, f: Function) {
    HeaderType(c, f) >= 128
  }

  predicate Bridge(c: Config, f: Function) {
    HeaderType(c, f) % 128 == 1
  }

  /** A function the scan of its bus comes upon: the higher numbers only where function 0 says there are several. */
  ghost predicate Visible(c: Config, f: Function) {
    && f.slot < SLOTS
    && f.number < FUNCTIONS
    && Present(c, f)
    && (f.number > 0 ==> Present(c, f.(number := 0)) && MultiFunction(c, f.(number := 0)))
  }

  function At(bus: Byte, place: int): (f: Function)
    requires 0 <= place < PLACES
    ensures f.bus == bus && f.Place() == place && f.slot < SLOTS && f.number < FUNCTIONS
  {
    Function(bus, place / FUNCTIONS, place % FUNCTIONS)
  }

  lemma SamePlace(f: Function, g: Function)
    requires f.bus == g.bus && f.number < FUNCTIONS && g.number < FUNCTIONS && f.Place() == g.Place()
    ensures f == g
  {
  }

  /** The scan goes by slot, and by number within a slot. */
  lemma PlacesOrder(f: Function, g: Function)
    requires f.number < FUNCTIONS && g.number < FUNCTIONS
    ensures f.Place() < g.Place() <==> f.slot < g.slot || (f.slot == g.slot && f.number < g.number)
  {
  }

  lemma PlaceInRange(c: Config, f: Function)
    requires Visible(c, f)
    ensures 0 <= f.Place() < PLACES && f.number < FUNCTIONS
  {
  }

  // ----- Routes through bridges -----

  /** Step i of a route is a bridge to the bus of the next step. */
  ghost predicate Leads(c: Config, q: seq<Function>, i: nat)
    requires i + 1 < |q|
  {
    Bridge(c, q[i]) && Secondary(c, q[i]) == q[i + 1].bus
  }

  /** Visible functions, each but the last a bridge to the bus of the next. */
  ghost predicate Route(c: Config, bus: Byte, q: seq<Function>) {
    && |q| > 0
    && q[0].bus == bus
    && (forall i :: 0 <= i < |q| ==> Visible(c, q[i]))
    && (forall i :: 0 <= i < |q| - 1 ==> Leads(c, q, i))
  }

  ghost predicate Trail(c: Config, bus: Byte, q: seq<Function>) {
    Route(c, bus, q) && !Bridge(c, Last(q))
  }

  function Last<T>(q: seq<T>): T
    requires |q| > 0
  {
    q[|q| - 1]
  }

  /** A function reached from a bus. */
  ghost predicate Reachable(c: Config, bus: Byte, f: Function) {
    exists q :: Route(c, bus, q) && Last(q) == f
  }

  /** A route after a bridge. */
  lemma RouteOn(c: Config, f: Function, q: seq<Function>)
    requires |q| > 0
    ensures Route(c, f.bus, [f] + q) <==> Visible(c, f) && Bridge(c, f) && Route(c, Secondary(c, f), q)
  {
    hide Visible, Bridge, Secondary;
    var p := [f] + q;
    forall i | 0 <= i < |q| - 1 ensures Leads(c, p, i + 1) <==> Leads(c, q, i) {
      assert p[i + 1] == q[i] && p[i + 2] == q[i + 1];
    }
    forall i | 0 <= i < |q| ensures p[i + 1] == q[i] {
    }
    if Route(c, f.bus, p) {
      assert Leads(c, p, 0) && Visible(c, p[0]);
      forall i | 0 <= i < |q| ensures Visible(c, q[i]) {
        assert Visible(c, p[i + 1]);
      }
      forall i | 0 <= i < |q| - 1 ensures Leads(c, q, i) {
        assert Leads(c, p, i + 1);
      }
    }
    if Visible(c, f) && Bridge(c, f) && Route(c, Secondary(c, f), q) {
      forall i | 0 <= i < |p| ensures Visible(c, p[i]) {
        assert i > 0 ==> p[i] == q[i - 1];
      }
      forall i | 0 <= i < |p| - 1 ensures Leads(c, p, i) {
        assert i > 0 ==> Leads(c, q, i - 1);
      }
      assert Route(c, f.bus, p);
    }
  }

  lemma RouteHead(c: Config, bus: Byte, q: seq<Function>)
    requires Route(c, bus, q)
    ensures |q| > 0 && q[0].bus == bus
  {
  }

  lemma RouteFirst(c: Config, bus: Byte, q: seq<Function>)
    requires Route(c, bus, q) && |q| > 1
    ensures Bridge(c, q[0])
  {
    hide Visible, Bridge, Secondary;
    assert Leads(c, q, 0);
  }

  /** A route without its last step. */
  lemma RouteInit(c: Config, bus: Byte, q: seq<Function>, n: nat)
    requires Route(c, bus, q) && n == |q| - 1 && n > 0
    ensures Route(c, bus, q[..n]) && Last(q[..n]) == q[n - 1]
    ensures Visible(c, q[n - 1]) && Bridge(c, q[n - 1]) && Secondary(c, q[n - 1]) == q[n].bus
  {
    hide Visible, Bridge, Secondary;
    assert Leads(c, q, n - 1);
    var p := q[..n];
    forall i | 0 <= i < |p| ensures Visible(c, p[i]) {
      assert p[i] == q[i];
    }
    forall i | 0 <= i < |p| - 1 ensures Leads(c, p, i) {
      assert Leads(c, q, i) && p[i] == q[i] && p[i + 1] == q[i + 1];
    }
  }

  /** A route one step longer. */
  lemma RouteAppend(c: Config, bus: Byte, q: seq<Function>, f: Function)
    requires Route(c, bus, q) && Bridge(c, Last(q)) && Visible(c, f) && Secondary(c, Last(q)) == f.bus
    ensures Route(c, bus, q + [f])
  {
    hide Visible, Bridge, Secondary;
    var p := q + [f];
    forall i | 0 <= i < |p| - 1 ensures Leads(c, p, i) {
      assert i + 1 < |q| ==> Leads(c, q, i);
    }
  }

  lemma RouteOne(c: Config, f: Function)
    requires Visible(c, f)
    ensures Route(c, f.bus, [f])
  {
    hide Visible, Bridge, Secondary;
  }

  // ----- Loops -----

  ghost predicate DistinctBuses(q: seq<Function>) {
    forall i, j :: 0 <= i < j < |q| ==> q[i].bus != q[j].bus
  }

  /** No route from the bus meets a bus twice. */
  ghost predicate LoopFree(c: Config, bus: Byte) {
    forall q :: Route(c, bus, q) ==> DistinctBuses(q)
  }

  /** Some route from the bus ends at a bridge to bus x. */
  ghost predicate LeadsTo(c: Config, bus: Byte, x: int) {
    exists q :: Route(c, bus, q) && Bridge(c, Last(q)) && Secondary(c, Last(q)) == x
  }

  /** How many buses lie behind the bridges of a bus. */
  ghost function Rank(c: Config, bus: Byte): nat {
    |Below(c, bus)|
  }

  ghost function Below(c: Config, bus: Byte): set<int> {
    set x | 0 <= x < 256 && LeadsTo(c, bus, x)
  }

  lemma LeadsToOn(c: Config, f: Function, x: int)
    requires Visible(c, f) && Bridge(c, f) && LeadsTo(c, Secondary(c, f), x)
    ensures LeadsTo(c, f.bus, x)
  {
    var q :| Route(c, Secondary(c, f), q) && Bridge(c, Last(q)) && Secondary(c, Last(q)) == x;
    RouteOn(c, f, q);
    hide Visible, Bridge, Secondary, Route;
    assert Last([f] + q) == Last(q);
  }

  lemma LoopFreeBehind(c: Config, f: Function)
    requires LoopFree(c, f.bus) && Visible(c, f) && Bridge(c, f)
    ensures LoopFree(c, Secondary(c, f))
  {
    forall q: seq<Function> | Route(c, Secondary(c, f), q) ensures DistinctBuses(q) {
      RouteOn(c, f, q);
      var p := [f] + q;
      hide Visible, Bridge, Secondary, Route;
      assert DistinctBuses(p);
      forall i, j | 0 <= i < j < |q| ensures q[i].bus != q[j].bus {
        assert q[i] == p[i + 1] && q[j] == p[j + 1];
      }
    }
  }

  /** A bus behind one of its own bridges is met twice. */
  lemma LoopBack(c: Config, bus: Byte)
    requires LeadsTo(c, bus, bus)
    ensures !LoopFree(c, bus)
  {
    var q: seq<Function> :| Route(c, bus, q) && Bridge(c, Last(q)) && Secondary(c, Last(q)) == bus;
    RouteAppend(c, bus, q, q[0]);
    var p := q + [q[0]];
    assert p[0].bus == p[|q|].bus;
    assert Route(c, bus, p) && !DistinctBuses(p);
  }

  /** Behind a bridge there is no loop either, and fewer buses. */
  lemma RankFalls(c: Config, f: Function)
    requires LoopFree(c, f.bus) && Visible(c, f) && Bridge(c, f)
    ensures LoopFree(c, Secondary(c, f)) && Rank(c, Secondary(c, f)) < Rank(c, f.bus)
  {
    LoopFreeBehind(c, f);
    if LeadsTo(c, Secondary(c, f), Secondary(c, f)) {
      LoopBack(c, Secondary(c, f));
    }
    RouteOne(c, f);
    hide Visible, Bridge, Secondary, Route, LoopFree;
    assert Last([f]) == f;
    var above, below := Below(c, f.bus), Below(c, Secondary(c, f));
    forall x | x in below ensures x in above {
      LeadsToOn(c, f, x);
    }
    assert Secondary(c, f) in above && Secondary(c, f) !in below;
    FewerMembers(below, above);
  }

  // ----- What is enumerated -----

  /** Behind f, if it is a bridge, there is no loop. */
  ghost predicate ClearBehind(c: Config, f: Function) {
    Visible(c, f) && Bridge(c, f) ==> LoopFree(c, Secondary(c, f))
  }

  lemma ClearOnBus(c: Config, f: Function)
    requires LoopFree(c, f.bus)
    ensures ClearBehind(c, f) && Nesting(c, f) < 2 * Rank(c, f.bus) + 1
  {
    if Visible(c, f) && Bridge(c, f) {
      RankFalls(c, f);
    }
  }

  /** A bound on the calls one function leads to. */
  ghost function Nesting(c: Config, f: Function): nat {
    if Visible(c, f) && Bridge(c, f) then 2 * Rank(c, Secondary(c, f)) + 1 else 0
  }

  /** The functions appended from one place of a bus on. */
  ghost function Devices(c: Config, bus: Byte, place: int): seq<Function>
    requires LoopFree(c, bus) && 0 <= place <= PLACES
    decreases 2 * Rank(c, bus), PLACES - place
  {
    if place == PLACES then []
    else
      ClearOnBus(c, At(bus, place));
      Appended(c, At(bus, place)) + Devices(c, bus, place + 1)
  }

  /** What one function contributes. */
  ghost function Appended(c: Config, f: Function): seq<Function>
    requires ClearBehind(c, f)
    decreases Nesting(c, f), 0
  {
    if !Visible(c, f) then []
    else if Bridge(c, f) then Devices(c, Secondary(c, f), 0)
    else [f]
  }
}
