/** The recursive walk itself, over the list of discovered functions. */
module PciEnumeration {
  import opened Collections
  import opened PciPaths
  import opened PciLoops
  import opened PciWalk
  import opened PciChains

  datatype Result<T> = Ok(value: T) | Err(error: PciError)

  /** The list grew by the functions that the paths name, in order. */
  ghost predicate Walked(topology: Topology, before: seq<BusDeviceFunction>, after: seq<BusDeviceFunction>,
                         paths: seq<Path>) {
    && |after| == |before| + |paths| && after[..|before|] == before
    && forall i :: 0 <= i < |paths| ==> |paths[i]| >= 2 && after[|before| + i] == Target(topology, paths[i])
  }

  lemma WalkedNext(topology: Topology, a: seq<BusDeviceFunction>, b: seq<BusDeviceFunction>, c: seq<BusDeviceFunction>,
                   p: seq<Path>, q: seq<Path>)
    requires Walked(topology, a, b, p) && Walked(topology, b, c, q)
    ensures Walked(topology, a, c, p + q)
  {
    assert c[..|a|] == c[..|b|][..|a|];
    var pq := p + q;
    forall i | 0 <= i < |pq| ensures |pq[i]| >= 2 && c[|a| + i] == Target(topology, pq[i]) {
      if i < |p| {
        assert c[|a| + i] == c[..|b|][|a| + i];
      } else {
        assert c[|a| + i] == c[|b| + (i - |p|)];
      }
    }
  }

  /** The result tells where the walk stopped. */
  ghost predicate Reports(topology: Topology, stop: Stop, r: Result<Byte>) {
    match stop
    case None => r.Ok?
    case Some(p) => HasFault(topology, p) && r == Err(FaultAt(topology, p))
  }

  lemma {:induction false} InvisibleRange(topology: Topology, roots: int, prefix: Path, lo: int, hi: int)
    requires prefix != [] && lo <= hi
    requires forall s :: lo <= s < hi ==> !Visible(topology, BusOf(topology, prefix), s)
    ensures Exact(topology, roots, prefix, lo, hi, [], None)
    decreases hi - lo
  {
    if lo == hi {
      Nothing(topology, roots, prefix, lo);
    } else {
      InvisibleRange(topology, roots, prefix, lo, hi - 1);
      Invisible(topology, roots, prefix, hi - 1);
      hide Exact;
      var none: seq<Path> := [];
      Extend(topology, roots, prefix, lo, hi - 1, hi, none, none, None);
      assert none + none == none;
    }
  }

  /** The slots of a device beyond function 0 are invisible unless it is multi-function. */
  lemma OtherSlots(topology: Topology, bus: int, device: int)
    requires 0 <= device < 32
    requires var first := BusDeviceFunction(bus, device, 0);
      first !in topology || !MultiFunction(topology[first])
    ensures forall s :: 8 * device + 1 <= s < 8 * device + 8 ==> !Visible(topology, bus, s)
  {
  }

  class Enumerator {
    const topology: Topology
    var devices: seq<BusDeviceFunction>  // PCI_DEVICE_LINKEDLIST

    method ReadHeader(f: BusDeviceFunction, addToList: bool) returns (r: Result<Header>)
      modifies this
      ensures f !in topology ==> r == Err(GetWrongHeader)
      ensures f in topology ==> r == if Layout(topology[f]) > 2 then Err(UnrecognisedHeaderType) else Ok(topology[f])
      ensures devices == old(devices) + if r.Ok? && addToList then [f] else []
    {
      if f !in topology {
        return Err(GetWrongHeader);
      }
      var header := topology[f];
      if Layout(header) > 2 {
        return Err(UnrecognisedHeaderType);
      }
      if addToList {
        devices := devices + [f];
      }
      r := Ok(header);
    }

    /** `bus` lies behind the reachable path `prefix`. */
    ghost predicate On(roots: int, prefix: Path, bus: int) {
      prefix != [] && Open(topology, roots, prefix) && BusOf(topology, prefix) == bus
      && 0 <= bus < 256 && 0 <= roots <= 256
    }

    method CheckFunction(f: BusDeviceFunction, ghost roots: int, ghost prefix: Path)
      returns (r: Result<Byte>, ghost paths: seq<Path>, ghost stop: Stop)
      requires NoLoop(topology, roots) && On(roots, prefix, f.bus) && 0 <= f.device < 32 && 0 <= f.func < 8
      requires f in topology ==> Visible(topology, f.bus, 8 * f.device + f.func)
      modifies this
      ensures var slot := 8 * f.device + f.func; Exact(topology, roots, prefix, slot, slot + 1, paths, stop)
      ensures Walked(topology, old(devices), devices, paths) && Reports(topology, stop, r)
      decreases 257 - |prefix|, 0
    {
      ghost var slot := 8 * f.device + f.func;
      ghost var here := prefix + [slot];
      assert Parent(here) == prefix && Last(here) == slot && At(f.bus, slot) == f;
      assert Target(topology, here) == f;
      hide Exact, Visible, Target, BusOf, NoLoop;
      paths, stop := [], None;
      var read := ReadHeader(f, true);
      if read.Err? {
        if read.error.GetWrongHeader? {
          NotPresent(topology, f.bus, slot);
          Invisible(topology, roots, prefix, slot);
          return Ok(255), [], None;
        }
        Leaf(topology, roots, prefix, slot);
        return Err(read.error), [], Some(here);
      }
      var header := read.value;
      paths := [here];
      assert Walked(topology, old(devices), devices, [here]);
      if BridgeClass(header) {
        if Layout(header) != 1 {
          Leaf(topology, roots, prefix, slot);
          return Err(PciDeviceStructureTransformError), paths, Some(here);
        }
        BehindBridge(topology, roots, prefix, slot);
        PathBound(topology, roots, here);
        ghost var now := devices;
        ghost var sub;
        r, sub, stop := CheckBus(header.secondaryBus, roots, here);
        WalkedNext(topology, old(devices), now, devices, [here], sub);
        Behind(topology, roots, prefix, slot, sub, stop);
        paths := [here] + sub;
        if r.Err? {
          return;
        }
        return Ok(0), paths, stop;
      }
      Leaf(topology, roots, prefix, slot);
      r := Ok(0);
    }

    method CheckDevice(bus: Byte, device: int, ghost roots: int, ghost prefix: Path)
      returns (r: Result<Byte>, ghost paths: seq<Path>, ghost stop: Stop)
      requires NoLoop(topology, roots) && On(roots, prefix, bus) && 0 <= device < 32
      modifies this
      ensures Exact(topology, roots, prefix, 8 * device, 8 * device + 8, paths, stop)
      ensures Walked(topology, old(devices), devices, paths) && Reports(topology, stop, r)
      decreases 257 - |prefix|, 2
    {
      hide NoLoop, Open, BusOf;
      var first := BusDeviceFunction(bus, device, 0);
      ghost var lo := 8 * device;
      assert At(bus, lo) == first;
      var read := ReadHeader(first, false);
      if read.Err? {
        if read.error.GetWrongHeader? {
          OtherSlots(topology, bus, device);
          InvisibleRange(topology, roots, prefix, lo, lo + 8);
          return Ok(255), [], None;
        }
        hide Exact;
        Leaf(topology, roots, prefix, lo);
        stop := Some(prefix + [lo]);
        assert Parent(prefix + [lo]) == prefix && Last(prefix + [lo]) == lo;
        Abort(topology, roots, prefix, lo, lo + 1, lo + 8, [], stop);
        return Err(read.error), [], stop;
      }
      hide Exact, Walked, Reports;
      r, paths, stop := CheckFunction(first, roots, prefix);
      if r.Err? {
        StoppedIff(topology, stop, r);
        Abort(topology, roots, prefix, lo, lo + 1, lo + 8, paths, stop);
        return;
      }
      StoppedIff(topology, stop, r);
      if !MultiFunction(read.value) {
        OtherSlots(topology, bus, device);
        InvisibleRange(topology, roots, prefix, lo + 1, lo + 8);
        Extend(topology, roots, prefix, lo, lo + 1, lo + 8, paths, [], None);
        assert paths + [] == paths;
        Finished(topology);
        return Ok(0), paths, None;
      }
      ghost var now := devices;
      ghost var more;
      r, more, stop := CheckOthers(bus, device, roots, prefix);
      WalkedNext(topology, old(devices), now, devices, paths, more);
      Extend(topology, roots, prefix, lo, lo + 1, lo + 8, paths, more, stop);
      paths := paths + more;
    }

    /** Functions 1 to 7 of a multi-function device. */
    method CheckOthers(bus: Byte, device: int, ghost roots: int, ghost prefix: Path)
      returns (r: Result<Byte>, ghost paths: seq<Path>, ghost stop: Stop)
      requires NoLoop(topology, roots) && On(roots, prefix, bus) && 0 <= device < 32
      requires var first := BusDeviceFunction(bus, device, 0);
        first in topology && MultiFunction(topology[first])
      modifies this
      ensures Exact(topology, roots, prefix, 8 * device + 1, 8 * device + 8, paths, stop)
      ensures Walked(topology, old(devices), devices, paths) && Reports(topology, stop, r)
      decreases 257 - |prefix|, 1
    {
      ghost var lo := 8 * device + 1;
      paths := [];
      Nothing(topology, roots, prefix, lo);
      var func := 1;
      while func < 8
        invariant 1 <= func <= 8
        invariant Exact(topology, roots, prefix, lo, 8 * device + func, paths, None)
        invariant Walked(topology, old(devices), devices, paths)
      {
        ghost var now := devices;
        ghost var more;
        ghost var slot := 8 * device + func;
        assert At(bus, slot) == BusDeviceFunction(bus, device, func);
        hide Exact, Walked, Reports;
        r, more, stop := CheckFunction(BusDeviceFunction(bus, device, func), roots, prefix);
        WalkedNext(topology, old(devices), now, devices, paths, more);
        Extend(topology, roots, prefix, lo, slot, slot + 1, paths, more, stop);
        paths := paths + more;
        StoppedIff(topology, stop, r);
        if r.Err? {
          Abort(topology, roots, prefix, lo, slot + 1, 8 * device + 8, paths, stop);
          return;
        }
        func := func + 1;
      }
      r, stop := Ok(0), None;
    }

    method CheckBus(bus: Byte, ghost roots: int, ghost prefix: Path)
      returns (r: Result<Byte>, ghost paths: seq<Path>, ghost stop: Stop)
      requires NoLoop(topology, roots) && On(roots, prefix, bus)
      modifies this
      ensures Exact(topology, roots, prefix, 0, 256, paths, stop)
      ensures Walked(topology, old(devices), devices, paths) && Reports(topology, stop, r)
      decreases 257 - |prefix|, 3
    {
      paths := [];
      Nothing(topology, roots, prefix, 0);
      var device := 0;
      while device < 32
        invariant 0 <= device <= 32
        invariant Exact(topology, roots, prefix, 0, 8 * device, paths, None)
        invariant Walked(topology, old(devices), devices, paths)
      {
        hide Exact, Walked, Reports;
        ghost var now := devices;
        ghost var more;
        r, more, stop := CheckDevice(bus, device, roots, prefix);
        WalkedNext(topology, old(devices), now, devices, paths, more);
        Extend(topology, roots, prefix, 0, 8 * device, 8 * device + 8, paths, more, stop);
        paths := paths + more;
        StoppedIff(topology, stop, r);
        if r.Err? {
          Abort(topology, roots, prefix, 0, 8 * device + 8, 256, paths, stop);
          return;
        }
        device := device + 1;
      }
      r, stop := Ok(0), None;
    }

    /** `pci_check_all_buses`: a multi-function host bridge makes buses 1 to 7 roots as well. */
    method CheckAllBuses() returns (r: Result<Byte>, ghost paths: seq<Path>, ghost stop: Stop)
      requires NoLoop(topology, Roots(topology))
      modifies this
      ensures At(0, 0) !in topology ==> r == Err(GetWrongHeader) && devices == old(devices)
      ensures At(0, 0) in topology ==>
        && Exact(topology, Roots(topology), [], 0, Roots(topology), paths, stop)
        && Walked(topology, old(devices), devices, paths) && Reports(topology, stop, r)
      ensures old(devices) <= devices
      ensures At(0, 0) in topology ==>
        Outcome(topology, HostBuses(topology), devices[|old(devices)|..], if r.Ok? then None else Some(r.error))
    {
      var host := BusDeviceFunction(0, 0, 0);
      paths, stop := [], None;
      var read := ReadHeader(host, false);
      ghost var roots := Roots(topology);
      if read.Err? {
        if host in topology {
          stop := Some([0, 0]);
          HostFault(topology);
          Ended(topology, devices, devices, [], stop, Err(read.error));
        }
        return Err(read.error), [], stop;
      }
      hide Exact, Walked, Reports, Outcome;
      RootOpen(topology, roots, 0);
      r, paths, stop := CheckBus(0, roots, [0]);
      Root(topology, roots, 0, paths, stop);
      StoppedIff(topology, stop, r);
      if r.Err? {
        Abort(topology, roots, [], 0, 1, roots, paths, stop);
        Ended(topology, old(devices), devices, paths, stop, r);
        return;
      }
      if MultiFunction(read.value) {
        assert At(0, 0) == host && roots == 8;
        var bus := 1;
        while bus < 8
          invariant 1 <= bus <= 8
          invariant Exact(topology, roots, [], 0, bus, paths, None)
          invariant Walked(topology, old(devices), devices, paths)
        {
          ghost var now := devices;
          ghost var more;
          RootOpen(topology, roots, bus);
          r, more, stop := CheckBus(bus, roots, [bus]);
          Root(topology, roots, bus, more, stop);
          WalkedNext(topology, old(devices), now, devices, paths, more);
          Extend(topology, roots, [], 0, bus, bus + 1, paths, more, stop);
          paths := paths + more;
          StoppedIff(topology, stop, r);
          if r.Err? {
            Abort(topology, roots, [], 0, bus + 1, roots, paths, stop);
            Ended(topology, old(devices), devices, paths, stop, r);
            return;
          }
          bus := bus + 1;
        }
      }
      Finished(topology);
      Ended(topology, old(devices), devices, paths, None, Ok(0));
      return Ok(0), paths, None;
    }
  }

  /** The number of buses the walk starts from. */
  ghost function Roots(topology: Topology): int {
    if At(0, 0) in topology && MultiFunction(topology[At(0, 0)]) then 8 else 1
  }

  /** What a walk of all buses has come to. */
  lemma Ended(topology: Topology, before: seq<BusDeviceFunction>, after: seq<BusDeviceFunction>, paths: seq<Path>,
              stop: Stop, r: Result<Byte>)
    requires Exact(topology, Roots(topology), [], 0, Roots(topology), paths, stop)
    requires Walked(topology, before, after, paths) && Reports(topology, stop, r)
    ensures before <= after
    ensures Outcome(topology, HostBuses(topology), after[|before|..], if r.Ok? then None else Some(r.error))
  {
    hide Exact, Outcome;
    assert At(0, 0) == BusDeviceFunction(0, 0, 0) && Roots(topology) == HostBuses(topology);
    var added := after[|before|..];
    assert forall i :: 0 <= i < |paths| ==> added[i] == after[|before| + i];
    ExactOutcome(topology, Roots(topology), paths, stop, added);
  }

  lemma NotPresent(topology: Topology, bus: int, slot: int)
    requires At(bus, slot) !in topology
    ensures !Visible(topology, bus, slot)
  {
  }

  lemma StoppedIff(topology: Topology, stop: Stop, r: Result<Byte>)
    requires Reports(topology, stop, r)
    ensures stop.None? <==> r.Ok?
  {
  }

  lemma Finished(topology: Topology)
    ensures Reports(topology, None, Ok(0))
  {
  }

  lemma BehindBridge(topology: Topology, roots: int, prefix: Path, slot: int)
    requires prefix != [] && Open(topology, roots, prefix) && Visible(topology, BusOf(topology, prefix), slot)
    requires Bridge(topology[At(BusOf(topology, prefix), slot)])
    ensures Open(topology, roots, prefix + [slot])
    ensures BusOf(topology, prefix + [slot]) == topology[At(BusOf(topology, prefix), slot)].secondaryBus
  {
    var here := prefix + [slot];
    assert Parent(here) == prefix && Last(here) == slot;
  }

  lemma HostFault(topology: Topology)
    requires At(0, 0) in topology && Layout(topology[At(0, 0)]) > 2
    ensures Exact(topology, Roots(topology), [], 0, Roots(topology), [], Some([0, 0]))
    ensures HasFault(topology, [0, 0]) && FaultAt(topology, [0, 0]) == UnrecognisedHeaderType
  {
    var roots := Roots(topology);
    assert Parent([0, 0]) == [0] && Last([0, 0]) == 0;
    hide Exact;
    Leaf(topology, roots, [0], 0);
    assert [0] + [0] == [0, 0];
    Abort(topology, roots, [0], 0, 1, 256, [], Some([0, 0]));
    Root(topology, roots, 0, [], Some([0, 0]));
    Abort(topology, roots, [], 0, 1, roots, [], Some([0, 0]));
  }
}
