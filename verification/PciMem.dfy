/** Enumeration as the kernel runs it: a depth-first recursion that appends records to one linked list. */
module PciMem {
  import opened Machine
  import opened PciSpec

  // ----- The scan of a bus -----

  lemma ScanPlace(c: Config, f: Function)
    requires LoopFree(c, f.bus) && f.slot < SLOTS && f.number < FUNCTIONS
    ensures ClearBehind(c, f) && Nesting(c, f) < 2 * Rank(c, f.bus) + 1
    ensures Devices(c, f.bus, f.Place()) == Appended(c, f) + Devices(c, f.bus, f.Place() + 1)
  {
    ClearOnBus(c, f);
    hide LoopFree, Appended, Visible, ClearBehind, Nesting, Rank;
    AtPlace(f);
  }

  lemma AtPlace(f: Function)
    requires f.slot < SLOTS && f.number < FUNCTIONS
    ensures 0 <= f.Place() < PLACES && At(f.bus, f.Place()) == f
  {
  }

  /** Places with nothing visible contribute nothing. */
  lemma {:induction false} ScanHidden(c: Config, f: Function, n: nat)
    requires LoopFree(c, f.bus) && f.slot < SLOTS && f.number + n <= FUNCTIONS
    requires forall k :: f.number <= k < f.number + n ==> !Visible(c, f.(number := k))
    ensures Devices(c, f.bus, f.Place()) == Devices(c, f.bus, f.Place() + n)
    decreases n
  {
    hide LoopFree, Devices, Visible, ClearBehind, Nesting, Rank;
    if n > 0 {
      ScanPlace(c, f);
      assert f == f.(number := f.number);
      var g := f.(number := f.number + 1);
      ScanHidden(c, g, n - 1);
    }
  }

  /** An empty slot. */
  lemma ScanEmptySlot(c: Config, f: Function)
    requires LoopFree(c, f.bus) && f.slot < SLOTS && f.number == 0 && !Present(c, f)
    ensures Devices(c, f.bus, f.Place()) == Devices(c, f.bus, f.Place() + FUNCTIONS)
  {
    hide LoopFree, Devices, Present, Rank;
    assert f == f.(number := 0);
    ScanHidden(c, f, FUNCTIONS);
  }

  /** A slot whose function 0 claims no others. */
  lemma ScanSingleSlot(c: Config, f: Function)
    requires LoopFree(c, f.bus) && f.slot < SLOTS && f.number == 0 && Present(c, f) && !MultiFunction(c, f)
    ensures Visible(c, f) && ClearBehind(c, f) && Nesting(c, f) < 2 * Rank(c, f.bus) + 1
    ensures Devices(c, f.bus, f.Place()) == Appended(c, f) + Devices(c, f.bus, f.Place() + FUNCTIONS)
  {
    hide LoopFree, Devices, Appended, Present, MultiFunction, ClearBehind, Nesting, Rank;
    assert f == f.(number := 0);
    ScanPlace(c, f);
    ScanHidden(c, f.(number := 1), FUNCTIONS - 1);
  }

  // ----- The list in memory -----

  class Device {
    const at: Function
    var next: Device?

    constructor (at: Function)
      ensures this.at == at && next == null
    {
      this.at := at;
      next := null;
    }
  }

  ghost function Functions(nodes: seq<Device>): (r: seq<Function>)
    ensures |r| == |nodes| && forall i :: 0 <= i < |r| ==> r[i] == nodes[i].at
  {
    if nodes == [] then [] else Functions(nodes[..|nodes| - 1]) + [Last(nodes).at]
  }

  class Enumerator {
    const config: Config
    var first: Device?
    var last: Device?
    ghost var nodes: seq<Device>

    ghost predicate Valid()
      reads this, nodes
    {
      && (nodes == [] ==> first == null)
      && (nodes != [] ==> first == nodes[0] && last == Last(nodes) && Last(nodes).next == null)
      && (forall i, j {:trigger nodes[i], nodes[j]} :: 0 <= i && j == i + 1 && j < |nodes| ==>
           nodes[i].next == nodes[j])
      && (forall i, j :: 0 <= i < j < |nodes| ==> nodes[i] != nodes[j])
    }

    /** The functions on the list, first to last. */
    ghost function Contents(): (r: seq<Function>)
      reads this
      ensures |r| == |nodes|
    {
      Functions(nodes)
    }

    constructor (config: Config)
      ensures Valid() && Contents() == [] && this.config == config && fresh(nodes)
    {
      this.config := config;
      first, last, nodes := null, null, [];
    }

    /** The other branch of EnumerateDevice: one record more at the end. */
    method Append(f: Function)
      requires Valid()
      modifies this, nodes
      ensures Valid() && Contents() == old(Contents()) + [f]
      ensures fresh(set n | n in nodes && n !in old(nodes))
    {
      var linked := new Device(f);
      if first == null {
        first := linked;
      } else {
        last.next := linked;
      }
      last := linked;
      nodes := nodes + [linked];
    }

    /** Appends what a function contributes: itself, or everything behind it when it is a bridge. */
    method EnumerateDevice(f: Function)
      requires Valid() && Visible(config, f) && ClearBehind(config, f)
      modifies this, nodes
      ensures Valid() && Contents() == old(Contents()) + Appended(config, f)
      ensures fresh(set n | n in nodes && n !in old(nodes))
      decreases Nesting(config, f), 0
    {
      if HeaderType(config, f) % 128 == 1 {
        EnumerateBus(Secondary(config, f));
      } else {
        Append(f);
      }
    }

    /** Appends everything on a bus and behind its bridges. */
    method EnumerateBus(bus: Byte)
      requires Valid() && LoopFree(config, bus)
      modifies this, nodes
      ensures Valid() && Contents() == old(Contents()) + Devices(config, bus, 0)
      ensures fresh(set n | n in nodes && n !in old(nodes))
      decreases 2 * Rank(config, bus), 2
    {
      hide LoopFree, Devices, Appended, Valid, Contents, ClearBehind, Nesting, Rank;
      var slot: Byte := 0;
      while slot < SLOTS
        invariant slot <= SLOTS
        invariant Valid() && fresh(set n | n in nodes && n !in old(nodes))
        invariant Contents() + Devices(config, bus, FUNCTIONS * slot) == old(Contents()) + Devices(config, bus, 0)
      {
        var f := Function(bus, slot, 0);
        if Vendor(config, f) != 0xFFFF {
          if HeaderType(config, f) >= 128 {
            EnumerateFunctions(f);
          } else {
            ScanSingleSlot(config, f);
            EnumerateDevice(f);
          }
        } else {
          ScanEmptySlot(config, f);
        }
        slot := slot + 1;
      }
      DevicesEnd(config, bus);
    }

    /** The inner loop over the eight functions of a slot. */
    method EnumerateFunctions(first: Function)
      requires Valid() && LoopFree(config, first.bus) && first.slot < SLOTS && first.number == 0
      requires Present(config, first) && MultiFunction(config, first)
      modifies this, nodes
      ensures Valid() && fresh(set n | n in nodes && n !in old(nodes))
      ensures Contents() + Devices(config, first.bus, first.Place() + FUNCTIONS)
        == old(Contents()) + Devices(config, first.bus, first.Place())
      decreases 2 * Rank(config, first.bus), 1
    {
      hide LoopFree, Devices, Appended, MultiFunction, Valid, Contents, ClearBehind, Nesting, Rank;
      var f := first;
      while f.number < FUNCTIONS
        invariant f == first.(number := f.number) && f.number <= FUNCTIONS
        invariant Valid() && fresh(set n | n in nodes && n !in old(nodes))
        invariant Contents() + Devices(config, f.bus, f.Place())
          == old(Contents()) + Devices(config, f.bus, first.Place())
        decreases FUNCTIONS - f.number
      {
        ScanPlace(config, f);
        if Vendor(config, f) != 0xFFFF {
          EnumerateDevice(f);
        } else {
          assert f == f.(number := f.number);
          ScanHidden(config, f, 1);
        }
        f := f.(number := f.number + 1);
      }
    }
  }

  lemma DevicesEnd(c: Config, bus: Byte)
    requires LoopFree(c, bus)
    ensures Devices(c, bus, PLACES) == []
  {
  }

  /** Starting with an empty list, enumeration from bus 0 leaves exactly the devices of bus 0 and below. */
  method InitPci(config: Config) returns (e: Enumerator)
    requires LoopFree(config, 0)
    ensures fresh(e) && e.config == config && e.Valid() && e.Contents() == Devices(config, 0, 0)
  {
    hide LoopFree, Devices;
    e := new Enumerator(config);
    e.EnumerateBus(0);
  }
}
