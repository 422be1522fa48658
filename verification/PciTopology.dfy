/** Enumeration on configuration spaces written down register by register, from the functions that are present. */
module PciTopology {
  import opened Machine
  import opened Lists
  import opened PciSpec
  import opened PciTheorems
  import opened PciReturns
  import opened PciMem

  /**
   One function's configuration header (PCI Local Bus Specification 3.0, section 6.1), as far as enumeration reads it.
   `layout` and `multi` are the low seven bits and the top bit of the header type byte; `secondary` is a bridge's
   secondary bus number; `low`, `bist`, `primary` and `upper` are what shares a register with them.
   */
  datatype Card = Card(
    vendor: nat, device: nat, layout: nat, multi: bool, secondary: Byte,
    low: nat, bist: Byte, primary: Byte, upper: nat)
  {
    predicate Valid() {
      vendor < 0xFFFF && device < 0x1_0000 && layout < 128 && low < 0x1_0000 && upper < 0x1_0000
    }

    function Register(r: int): nat {
      if r == 0 then 0x1_0000 * device + vendor
      else if r == 3 then 0x100_0000 * bist + 0x1_0000 * ((if multi then 128 else 0) + layout) + low
      else if r == 6 then 0x1_0000 * upper + 0x100 * secondary + primary
      else 0
    }
  }

  type Topology = map<Function, Card>

  ghost predicate Valid(t: Topology) {
    forall f :: f in t ==> t[f].Valid()
  }

  /**
   The data register for each address: bit 31 enables, then bus, slot, function and register number
   (section 3.2.2.3.2); all ones where nothing answers.
   */
  function Registers(t: Topology): Config {
    (a: nat) =>
      var f := Function(a / 0x1_0000 % 256, a / 0x800 % 32, a / 0x100 % 8);
      if a / 0x8000_0000 == 1 && f in t then t[f].Register(a / 4 % 64) else 0xFFFF_FFFF
  }

  lemma Decoded(f: Function, r: Byte)
    requires f.slot < SLOTS && f.number < FUNCTIONS && r < 64
    ensures var a := Address(f, r);
      && a / 0x8000_0000 == 1 && a / 0x1_0000 % 256 == f.bus && a / 0x800 % 32 == f.slot
      && a / 0x100 % 8 == f.number && a / 4 % 64 == r
  {
    FieldsFit(f, r);
    hide Address;
    var buses := 0x8000 + f.bus;
    var slots := 32 * buses + f.slot;
    var numbers := 8 * slots + f.number;
    QuotientRemainder(0x8000_0000, 1, 0x1_0000 * f.bus + 0x800 * f.slot + 0x100 * f.number + 4 * r);
    QuotientRemainder(0x1_0000, buses, 0x800 * f.slot + 0x100 * f.number + 4 * r);
    QuotientRemainder(0x800, slots, 0x100 * f.number + 4 * r);
    QuotientRemainder(0x100, numbers, 4 * r);
    QuotientRemainder(4, 64 * numbers + r, 0);
    QuotientRemainder(256, 128, f.bus);
    QuotientRemainder(32, buses, f.slot);
    QuotientRemainder(8, slots, f.number);
    QuotientRemainder(64, numbers, r);
  }

  lemma RegisterRead(t: Topology, f: Function, r: Byte)
    requires f.slot < SLOTS && f.number < FUNCTIONS && r < 64
    ensures Registers(t)(Address(f, r)) == if f in t then t[f].Register(r) else 0xFFFF_FFFF
  {
    Decoded(f, r);
    hide Address;
  }

  lemma CardFields(card: Card)
    requires card.Valid()
    ensures card.Register(0) % 0x1_0000 == card.vendor
    ensures card.Register(3) / 0x1_0000 % 256 == (if card.multi then 128 else 0) + card.layout
    ensures card.Register(6) / 256 % 256 == card.secondary
  {
    var header := (if card.multi then 128 else 0) + card.layout;
    QuotientRemainder(0x1_0000, card.device, card.vendor);
    QuotientRemainder(0x1_0000, 256 * card.bist + header, card.low);
    QuotientRemainder(256, card.bist, header);
    QuotientRemainder(256, 256 * card.upper + card.secondary, card.primary);
    QuotientRemainder(256, card.upper, card.secondary);
  }

  /** What the accessors read of a function in place, and that they find nothing elsewhere. */
  lemma CardReadsBack(t: Topology, f: Function)
    requires Valid(t) && f.slot < SLOTS && f.number < FUNCTIONS
    ensures var c := Registers(t);
      && (Present(c, f) <==> f in t)
      && (f in t ==>
           && MultiFunction(c, f) == t[f].multi
           && (Bridge(c, f) <==> t[f].layout == 1)
           && Secondary(c, f) == t[f].secondary)
  {
    hide Address, Registers, Card.Register;
    RegisterRead(t, f, 0);
    RegisterRead(t, f, 3);
    RegisterRead(t, f, 6);
    if f in t {
      assert t[f].Valid();
      CardFields(t[f]);
    }
  }

  // ----- What there is to find -----

  /** A function in place, and one the scan looks at: number 0, or behind a number 0 with the multi-function bit. */
  ghost predicate Found(t: Topology, f: Function) {
    && f.slot < 32 && f.number < 8 && f in t
    && (f.number > 0 ==> f.(number := 0) in t && t[f.(number := 0)].multi)
  }

  ghost predicate Joins(t: Topology, q: seq<Function>, i: nat)
    requires i + 1 < |q|
  {
    q[i] in t && t[q[i]].layout == 1 && t[q[i]].secondary == q[i + 1].bus
  }

  /** A way from a bus through bridges. */
  ghost predicate Path(t: Topology, bus: Byte, q: seq<Function>) {
    && |q| > 0 && q[0].bus == bus
    && (forall i :: 0 <= i < |q| ==> Found(t, q[i]))
    && (forall i :: 0 <= i < |q| - 1 ==> Joins(t, q, i))
  }

  lemma FoundIsVisible(t: Topology, f: Function)
    requires Valid(t)
    ensures Visible(Registers(t), f) <==> Found(t, f)
  {
    if f.slot < SLOTS && f.number < FUNCTIONS {
      CardReadsBack(t, f);
      CardReadsBack(t, f.(number := 0));
      hide Present, MultiFunction, Registers;
    }
  }

  lemma PathIsRoute(t: Topology, bus: Byte, q: seq<Function>)
    requires Valid(t)
    ensures Route(Registers(t), bus, q) <==> Path(t, bus, q)
  {
    var c := Registers(t);
    hide Registers, Valid, Visible, Bridge, Secondary, Found;
    forall i | 0 <= i < |q| ensures Visible(c, q[i]) <==> Found(t, q[i]) {
      FoundIsVisible(t, q[i]);
    }
    forall i | 0 <= i < |q| - 1 && Found(t, q[i]) ensures Leads(c, q, i) <==> Joins(t, q, i) {
      LeadsIsJoins(t, q, i);
    }
  }

  lemma LeadsIsJoins(t: Topology, q: seq<Function>, i: nat)
    requires Valid(t) && i + 1 < |q| && Found(t, q[i])
    ensures Leads(Registers(t), q, i) <==> Joins(t, q, i)
  {
    CardReadsBack(t, q[i]);
    hide Registers, Bridge, Secondary;
  }

  ghost predicate NoPathLoops(t: Topology, bus: Byte) {
    forall q :: Path(t, bus, q) ==> DistinctBuses(q)
  }

  lemma NoPathLoopsIff(t: Topology, bus: Byte)
    requires Valid(t)
    ensures LoopFree(Registers(t), bus) <==> NoPathLoops(t, bus)
  {
    hide Registers, Valid, Route, Path;
    forall q: seq<Function> ensures Route(Registers(t), bus, q) <==> Path(t, bus, q) {
      PathIsRoute(t, bus, q);
    }
  }

  // ----- Main results -----

  /** Enumeration returns exactly when no way through the bridges meets a bus twice. */
  lemma TopologyReturnsIff(t: Topology, bus: Byte)
    requires Valid(t)
    ensures Returns(Registers(t), bus) <==> NoPathLoops(t, bus)
  {
    NoPathLoopsIff(t, bus);
    ReturnsIff(Registers(t), bus);
  }

  /** It lists exactly the functions at the end of such ways that are no bridges. */
  lemma TopologyListedIff(t: Topology, bus: Byte, f: Function)
    requires Valid(t) && NoPathLoops(t, bus)
    ensures LoopFree(Registers(t), bus)
    ensures f in Devices(Registers(t), bus, 0) <==>
      f in t && t[f].layout != 1 && exists q :: Path(t, bus, q) && Last(q) == f
  {
    NoPathLoopsIff(t, bus);
    EnumeratedIff(Registers(t), bus, f);
    hide Registers, LoopFree, Devices;
    if Reachable(Registers(t), bus, f) {
      var q :| Route(Registers(t), bus, q) && Last(q) == f;
      PathIsRoute(t, bus, q);
      assert Found(t, q[|q| - 1]);
      CardReadsBack(t, f);
    }
    if q :| Path(t, bus, q) && Last(q) == f {
      PathIsRoute(t, bus, q);
      assert Found(t, q[|q| - 1]);
      CardReadsBack(t, f);
    }
  }

  // ----- A slot with two functions -----

  /** Functions 0 and 1 of slot s of bus 0, and nothing else. */
  function TwoFunctions(s: Byte, card0: Card, card1: Card): Topology {
    map[Function(0, s, 0) := card0, Function(0, s, 1) := card1]
  }

  lemma TwoFunctionsVisible(s: Byte, card0: Card, card1: Card, f: Function)
    requires s < 32 && card0.Valid() && card1.Valid() && card0.layout != 1 && card1.layout != 1
    ensures var c, f0, f1 := Registers(TwoFunctions(s, card0, card1)), Function(0, s, 0), Function(0, s, 1);
      && (Visible(c, f) <==> f == f0 || (f == f1 && card0.multi))
      && (Visible(c, f) ==> !Bridge(c, f))
  {
    var t := TwoFunctions(s, card0, card1);
    assert Valid(t);
    FoundIsVisible(t, f);
    if Found(t, f) {
      CardReadsBack(t, f);
    }
    hide Registers, Visible, Bridge;
  }

  /** Both are listed when function 0 has the multi-function bit, and function 0 alone when it has not. */
  lemma TwoFunctionsListed(s: Byte, card0: Card, card1: Card)
    requires s < 32 && card0.Valid() && card1.Valid() && card0.layout != 1 && card1.layout != 1
    ensures var c := Registers(TwoFunctions(s, card0, card1));
      && LoopFree(c, 0)
      && Devices(c, 0, 0) == if card0.multi then [Function(0, s, 0), Function(0, s, 1)] else [Function(0, s, 0)]
  {
    var c := Registers(TwoFunctions(s, card0, card1));
    forall f ensures Visible(c, f) <==> f == Function(0, s, 0) || (f == Function(0, s, 1) && card0.multi) {
      TwoFunctionsVisible(s, card0, card1, f);
    }
    forall f | Visible(c, f) ensures !Bridge(c, f) {
      TwoFunctionsVisible(s, card0, card1, f);
    }
    hide Registers, TwoFunctions, Visible, Bridge;
    NoBridgeNoLoop(c, 0);
    ScanPair(c, s, card0.multi);
  }

  lemma ScanPair(c: Config, s: Byte, both: bool)
    requires LoopFree(c, 0) && s < 32
    requires forall f :: Visible(c, f) <==> f == Function(0, s, 0) || (f == Function(0, s, 1) && both)
    requires forall f :: Visible(c, f) ==> !Bridge(c, f)
    ensures Devices(c, 0, 0) == if both then [Function(0, s, 0), Function(0, s, 1)] else [Function(0, s, 0)]
  {
    hide LoopFree, Visible, Bridge, Devices;
    var f0, f1, place := Function(0, s, 0), Function(0, s, 1), 8 * s;
    HiddenPlaces(c, 0, 0, place);
    ScanPlace(c, f0);
    ScanPlace(c, f1);
    HiddenPlaces(c, 0, place + 2, PLACES);
    DevicesEnd(c, 0);
  }

  lemma ShortRoute(c: Config, bus: Byte, q: seq<Function>)
    requires Route(c, bus, q)
    ensures |q| == 1 || (Visible(c, q[0]) && Bridge(c, q[0]))
  {
    if |q| > 1 {
      RouteFirst(c, bus, q);
    }
  }

  lemma NoBridgeNoLoop(c: Config, bus: Byte)
    requires forall f :: Visible(c, f) ==> !Bridge(c, f)
    ensures LoopFree(c, bus)
  {
    hide Visible, Bridge, Secondary;
    forall q: seq<Function> | Route(c, bus, q) ensures DistinctBuses(q) {
      ShortRoute(c, bus, q);
    }
  }

  lemma {:induction false} HiddenPlaces(c: Config, bus: Byte, place: int, end: int)
    requires LoopFree(c, bus) && 0 <= place <= end <= PLACES
    requires forall f: Function :: f.bus == bus && place <= f.Place() < end ==> !Visible(c, f)
    ensures Devices(c, bus, place) == Devices(c, bus, end)
    decreases end - place
  {
    hide LoopFree, Devices, Visible;
    if place < end {
      var f := At(bus, place);
      ScanPlace(c, f);
      HiddenPlaces(c, bus, place + 1, end);
    }
  }
}
