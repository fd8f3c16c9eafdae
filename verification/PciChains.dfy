/** What the walk comes to, in terms of functions and their configuration bytes alone. */
module PciChains {
  import opened Collections
  import opened PciPaths
  import opened PciWalk

  // ----- Configuration bytes -----

  /** The walk stops at such a function: an unknown layout, or a PCI-to-PCI bridge by class (06h, 04h or 09h)
      whose layout is not that of a bridge. */
  predicate Faulty(h: Header) {
    h.headerType % 128 > 2 || (h.classCode == 6 && (h.subclass == 4 || h.subclass == 9) && h.headerType % 128 != 1)
  }

  function ErrorOf(h: Header): PciError {
    if h.headerType % 128 > 2 then UnrecognisedHeaderType else PciDeviceStructureTransformError
  }

  /** There is a bus behind such a function. */
  predicate Leads(h: Header) {
    h.headerType % 128 == 1 && h.classCode == 6 && (h.subclass == 4 || h.subclass == 9)
  }

  /** The function answers; one other than function 0 does so only if bit 7 of function 0's type is set. */
  predicate Answers(topology: Topology, f: BusDeviceFunction) {
    && f in topology && 0 <= f.device < 32 && 0 <= f.func < 8
    && (f.func == 0 || (var first := BusDeviceFunction(f.bus, f.device, 0);
                        first in topology && topology[first].headerType >= 128))
  }

  lemma FaultyIff(h: Header)
    ensures Fault(h).Some? <==> Faulty(h)
    ensures Fault(h).Some? ==> Fault(h).value == ErrorOf(h)
  {
  }

  lemma LeadsIff(h: Header)
    ensures Bridge(h) <==> Leads(h)
  {
  }

  lemma AnswersIff(topology: Topology, bus: int, slot: int)
    ensures Visible(topology, bus, slot) <==> 0 <= slot < 256 && Answers(topology, At(bus, slot))
  {
  }

  // ----- Chains -----

  /** The functions on the way to the last one: the first is on a root bus, and each lies on the bus behind
      the one before. */
  predicate Chain(topology: Topology, roots: int, fs: seq<BusDeviceFunction>): (b: bool)
    ensures b ==> fs != []
  {
    && fs != [] && 0 <= fs[0].bus < roots && (forall i :: 0 <= i < |fs| ==> Answers(topology, fs[i]))
    && forall i :: 0 <= i < |fs| - 1 ==>
         fs[i] in topology && Leads(topology[fs[i]]) && fs[i + 1].bus == topology[fs[i]].secondaryBus
  }

  /** The root bus and the slots of a chain. */
  function Slots(fs: seq<BusDeviceFunction>): Path
    requires fs != []
  {
    if |fs| == 1 then [fs[0].bus, 8 * fs[0].device + fs[0].func]
    else Slots(fs[..|fs| - 1]) + [8 * fs[|fs| - 1].device + fs[|fs| - 1].func]
  }

  lemma ChainPrefix(topology: Topology, roots: int, fs: seq<BusDeviceFunction>)
    requires |fs| >= 2
    ensures var front, f := fs[..|fs| - 1], fs[|fs| - 1];
      Chain(topology, roots, fs) <==>
        && Chain(topology, roots, front) && Answers(topology, f)
        && fs[|fs| - 2] in topology && Leads(topology[fs[|fs| - 2]]) && f.bus == topology[fs[|fs| - 2]].secondaryBus
  {
    hide Answers, Leads;
    var front := fs[..|fs| - 1];
    assert forall i :: 0 <= i < |front| ==> front[i] == fs[i];
  }

  lemma SlotOf(f: BusDeviceFunction)
    requires 0 <= f.device < 32 && 0 <= f.func < 8
    ensures var slot := 8 * f.device + f.func; 0 <= slot < 256 && At(f.bus, slot) == f
  {
  }

  /** A path goes on exactly behind a function that leads to a bus, and to one that answers there. */
  lemma FoundStep(topology: Topology, roots: int, p: Path)
    requires |p| >= 2
    ensures var front := Parent(p);
      Found(topology, roots, p) <==>
        && 0 <= Last(p) < 256 && Answers(topology, Target(topology, p))
        && if |p| == 2 then 0 <= p[0] < roots
           else Found(topology, roots, front) && Target(topology, front) in topology
                && Leads(topology[Target(topology, front)])
  {
    hide Visible, Answers;
    var front := Parent(p);
    AnswersIff(topology, BusOf(topology, front), Last(p));
    if |p| > 2 && Target(topology, front) in topology {
      LeadsIff(topology[Target(topology, front)]);
    }
    assert Reach(topology, roots, p) <==>
      Open(topology, roots, front) && Visible(topology, BusOf(topology, front), Last(p));
    assert Open(topology, roots, front) <==>
      Reach(topology, roots, front)
      && (|front| >= 2 ==> Target(topology, front) in topology && Bridge(topology[Target(topology, front)]));
  }

  /** Every chain is a path to its last function. */
  lemma {:induction false} ChainFound(topology: Topology, roots: int, fs: seq<BusDeviceFunction>)
    requires Chain(topology, roots, fs)
    ensures Found(topology, roots, Slots(fs)) && Target(topology, Slots(fs)) == fs[|fs| - 1]
    decreases |fs|
  {
    var f, p := fs[|fs| - 1], Slots(fs);
    assert Answers(topology, f);
    SlotOf(f);
    hide Answers, Leads, Found;
    if |fs| == 1 {
      assert Parent(p) == [f.bus];
    } else {
      ChainPrefix(topology, roots, fs);
      ChainFound(topology, roots, fs[..|fs| - 1]);
      assert Parent(p) == Slots(fs[..|fs| - 1]);
    }
    FoundStep(topology, roots, p);
  }

  /** Every path to a function is a chain. */
  lemma {:induction false} FoundChain(topology: Topology, roots: int, p: Path) returns (fs: seq<BusDeviceFunction>)
    requires Found(topology, roots, p)
    ensures Chain(topology, roots, fs) && Slots(fs) == p && fs[|fs| - 1] == Target(topology, p)
    decreases |p|
  {
    assert |p| >= 2;
    hide Answers, Leads, Found;
    FoundStep(topology, roots, p);
    var f, front := Target(topology, p), Parent(p);
    assert 8 * f.device + f.func == Last(p) && f.bus == BusOf(topology, front);
    if |p| == 2 {
      fs := [f];
      assert p == [p[0], p[1]] && front == [p[0]];
    } else {
      var before := FoundChain(topology, roots, front);
      fs := before + [f];
      assert fs[..|fs| - 1] == before;
      ChainPrefix(topology, roots, fs);
      assert p == front + [Last(p)];
    }
  }

  // ----- The outcome of a walk -----

  /** The buses the walk starts from: bus 0, and 1 to 7 if bit 7 of the host's type is set. */
  function HostBuses(topology: Topology): int {
    var host := BusDeviceFunction(0, 0, 0);
    if host in topology && topology[host].headerType >= 128 then 8 else 1
  }

  ghost predicate Named(topology: Topology, roots: int, fs: seq<BusDeviceFunction>, f: BusDeviceFunction): (b: bool)
    ensures b ==> fs != []
  {
    Chain(topology, roots, fs) && fs[|fs| - 1] == f
  }

  ghost predicate FaultyChain(topology: Topology, roots: int, fs: seq<BusDeviceFunction>): (b: bool)
    ensures b ==> Chain(topology, roots, fs)
  {
    Chain(topology, roots, fs) && Faulty(topology[fs[|fs| - 1]])
  }

  /** The chain ends at a faulty function, and none that comes earlier in depth-first order does. */
  ghost predicate FirstFaulty(topology: Topology, roots: int, fs: seq<BusDeviceFunction>) {
    && FaultyChain(topology, roots, fs)
    && forall gs :: FaultyChain(topology, roots, gs) ==> !Less(Slots(gs), Slots(fs))
  }

  /** The chains that a walk stopped at the end of `fs` with error `e` has listed. */
  ghost predicate ListedBefore(fs: seq<BusDeviceFunction>, e: PciError, gs: seq<BusDeviceFunction>)
    requires fs != [] && gs != []
  {
    Less(Slots(gs), Slots(fs)) || (Slots(gs) == Slots(fs) && e == PciDeviceStructureTransformError)
  }

  /** Without a faulty function all functions that some chain names are listed, and no others.  Otherwise the
      walk fails as the first faulty function says, and has listed what comes before; a bridge by class with
      another layout is itself listed. */
  ghost predicate Outcome(topology: Topology, roots: int, added: seq<BusDeviceFunction>, error: Option<PciError>) {
    match error
    case None =>
      && (forall fs :: !FaultyChain(topology, roots, fs))
      && forall f :: f in added <==> exists fs :: Named(topology, roots, fs, f)
    case Some(e) =>
      exists fs :: FirstFaulty(topology, roots, fs) && StoppedAt(topology, roots, added, e, fs)
  }

  ghost predicate StoppedAt(topology: Topology, roots: int, added: seq<BusDeviceFunction>, e: PciError,
                            fs: seq<BusDeviceFunction>) {
    && Chain(topology, roots, fs)
    && e == ErrorOf(topology[fs[|fs| - 1]])
    && forall f :: f in added <==> exists gs :: Named(topology, roots, gs, f) && ListedBefore(fs, e, gs)
  }

  lemma FoundUnder(topology: Topology, roots: int, p: Path)
    requires Found(topology, roots, p)
    ensures Under([], 0, roots, p)
  {
    ReachPrefix(topology, roots, p, 1);
    assert p[..1] == [p[0]] && p[..0] == [];
  }

  lemma ChainFault(topology: Topology, roots: int, fs: seq<BusDeviceFunction>)
    requires Chain(topology, roots, fs)
    ensures Found(topology, roots, Slots(fs)) && Target(topology, Slots(fs)) == fs[|fs| - 1]
    ensures Under([], 0, roots, Slots(fs))
    ensures HasFault(topology, Slots(fs)) <==> FaultyChain(topology, roots, fs)
    ensures HasFault(topology, Slots(fs)) ==>
      FaultAt(topology, Slots(fs)) == ErrorOf(topology[fs[|fs| - 1]])
  {
    ChainFound(topology, roots, fs);
    FoundUnder(topology, roots, Slots(fs));
    FaultyIff(topology[fs[|fs| - 1]]);
    hide Fault, Faulty, Found, Under;
  }

  ghost predicate Targets(topology: Topology, added: seq<BusDeviceFunction>, paths: seq<Path>) {
    |added| == |paths| && forall i :: 0 <= i < |paths| ==> |paths[i]| >= 2 && added[i] == Target(topology, paths[i])
  }

  /** An exact listing has the outcome that the chains say. */
  lemma ExactOutcome(topology: Topology, roots: int, paths: seq<Path>, stop: Stop, added: seq<BusDeviceFunction>)
    requires Exact(topology, roots, [], 0, roots, paths, stop) && Targets(topology, added, paths)
    ensures stop.Some? ==> HasFault(topology, stop.value)
    ensures Outcome(topology, roots, added, if stop.None? then None else Some(FaultAt(topology, stop.value)))
  {
    match stop {
      case None => CompletedOutcome(topology, roots, paths, added);
      case Some(p) => StoppedOutcome(topology, roots, paths, p, added);
    }
  }

  lemma AddedIff(topology: Topology, roots: int, paths: seq<Path>, stop: Stop, added: seq<BusDeviceFunction>,
                 f: BusDeviceFunction)
    requires Exact(topology, roots, [], 0, roots, paths, stop) && Targets(topology, added, paths)
    ensures f in added <==>
      exists gs :: Named(topology, roots, gs, f) && Listed(topology, Slots(gs), stop)
  {
    hide Listed, Sorted, Found, Under, HasFault, FaultAt, Less, Target;
    if f in added {
      var i :| 0 <= i < |added| && added[i] == f;
      assert paths[i] in paths;
      var gs := FoundChain(topology, roots, paths[i]);
      assert Named(topology, roots, gs, f);
    }
    if gs :| Named(topology, roots, gs, f) && Listed(topology, Slots(gs), stop) {
      ChainFault(topology, roots, gs);
      assert Slots(gs) in paths;
      var i :| 0 <= i < |paths| && paths[i] == Slots(gs);
      assert added[i] == f;
    }
  }

  lemma CompletedOutcome(topology: Topology, roots: int, paths: seq<Path>, added: seq<BusDeviceFunction>)
    requires Exact(topology, roots, [], 0, roots, paths, None) && Targets(topology, added, paths)
    ensures Outcome(topology, roots, added, None)
  {
    hide Sorted, Found, Under, HasFault, FaultAt, Less, Target, Chain, FaultyChain, Targets;
    forall fs ensures !FaultyChain(topology, roots, fs) {
      if Chain(topology, roots, fs) {
        ChainFault(topology, roots, fs);
      }
    }
    forall f ensures f in added <==> exists fs :: Named(topology, roots, fs, f) {
      AddedIff(topology, roots, paths, None, added, f);
    }
  }

  lemma StoppedOutcome(topology: Topology, roots: int, paths: seq<Path>, p: Path, added: seq<BusDeviceFunction>)
    requires Exact(topology, roots, [], 0, roots, paths, Some(p)) && Targets(topology, added, paths)
    ensures HasFault(topology, p) && Outcome(topology, roots, added, Some(FaultAt(topology, p)))
  {
    hide Sorted, Found, Under, HasFault, FaultAt, Less, Target, Chain, FaultyChain, Targets;
    var fs := FoundChain(topology, roots, p);
    ChainFault(topology, roots, fs);
    forall gs | FaultyChain(topology, roots, gs) ensures !Less(Slots(gs), Slots(fs)) {
      ChainFault(topology, roots, gs);
    }
    var e := FaultAt(topology, p);
    forall f ensures f in added <==> exists gs :: Named(topology, roots, gs, f) && ListedBefore(fs, e, gs) {
      AddedIff(topology, roots, paths, Some(p), added, f);
    }
    assert StoppedAt(topology, roots, added, e, fs);
  }
}
