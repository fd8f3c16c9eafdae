/** Enumeration: the walk over buses, devices and functions lists exactly the reachable functions. */
module PciWalk {
  import opened Collections
  import opened PciPaths

  /** Where the walk stops early, if it does. */
  type Stop = Option<Path>

  ghost predicate HasFault(topology: Topology, p: Path) {
    |p| >= 2 && Target(topology, p) in topology && Fault(topology[Target(topology, p)]).Some?
  }

  ghost function FaultAt(topology: Topology, p: Path): PciError
    requires HasFault(topology, p)
  {
    Fault(topology[Target(topology, p)]).value
  }

  ghost predicate Before(p: Path, stop: Stop) {
    stop.None? || Less(p, stop.value)
  }

  /** A function is listed if it comes before the stop, or is itself a bridge by class whose layout is
      not that of a bridge: such a function is appended before the error is noticed. */
  ghost predicate Listed(topology: Topology, p: Path, stop: Stop) {
    || Before(p, stop)
    || (stop == Some(p) && HasFault(topology, p) && FaultAt(topology, p).PciDeviceStructureTransformError?)
  }

  /** `paths` are, in depth-first order, the reachable functions under `prefix` with next step in the
      range, up to the first faulty one if there is one. */
  ghost predicate Exact(topology: Topology, roots: int, prefix: Path, lo: int, hi: int, paths: seq<Path>, stop: Stop) {
    && Sorted(paths)
    && (forall p :: p in paths <==> Under(prefix, lo, hi, p) && Found(topology, roots, p) && Listed(topology, p, stop))
    && (forall p :: Under(prefix, lo, hi, p) && Found(topology, roots, p) && Before(p, stop) ==> !HasFault(topology, p))
    && (stop.Some? ==>
          && Under(prefix, lo, hi, stop.value) && Found(topology, roots, stop.value)
          && HasFault(topology, stop.value))
  }

  // ----- Putting walks together -----

  lemma Nothing(topology: Topology, roots: int, prefix: Path, at: int)
    ensures Exact(topology, roots, prefix, at, at, [], None)
  {
  }

  /** Two ranges, one after the other. */
  lemma Extend(topology: Topology, roots: int, prefix: Path, lo: int, mid: int, hi: int,
               a: seq<Path>, b: seq<Path>, stop: Stop)
    requires lo <= mid <= hi
    requires Exact(topology, roots, prefix, lo, mid, a, None) && Exact(topology, roots, prefix, mid, hi, b, stop)
    ensures Exact(topology, roots, prefix, lo, hi, a + b, stop)
  {
    var c := a + b;
    hide Found, HasFault, Less, FaultAt;
    forall p, q | Under(prefix, lo, mid, p) && Under(prefix, mid, hi, q) ensures Less(p, q) {
      RangesOrdered(prefix, lo, mid, hi, p, q);
    }
    forall i, j | 0 <= i < j < |c| ensures Less(c[i], c[j]) {
      assert i < |a| ==> c[i] in a;
      assert j >= |a| ==> c[j] in b;
    }
    forall p ensures Under(prefix, lo, hi, p) <==> Under(prefix, lo, mid, p) || Under(prefix, mid, hi, p) {
    }
    hide Under;
    assert forall p :: p in c <==> p in a || p in b;
  }

  /** After a stop, the rest of the range is not visited. */
  lemma Abort(topology: Topology, roots: int, prefix: Path, lo: int, mid: int, hi: int, a: seq<Path>, stop: Stop)
    requires lo <= mid <= hi && stop.Some? && Exact(topology, roots, prefix, lo, mid, a, stop)
    ensures Exact(topology, roots, prefix, lo, hi, a, stop)
  {
    forall p | Under(prefix, mid, hi, p) ensures !Listed(topology, p, stop) && !Before(p, stop) {
      RangesOrdered(prefix, lo, mid, hi, stop.value, p);
      LessAsym(stop.value, p);
    }
    forall p ensures Under(prefix, lo, hi, p) <==> Under(prefix, lo, mid, p) || Under(prefix, mid, hi, p) {
    }
    hide Found, HasFault, Less, FaultAt, Under;
  }

  /** The functions reached through one slot are the function there and what is behind it. */
  lemma ThroughSlot(topology: Topology, roots: int, prefix: Path, slot: int, p: Path)
    requires Under(prefix, slot, slot + 1, p) && Found(topology, roots, p)
    ensures var here := prefix + [slot];
      && Reach(topology, roots, here)
      && (p == here || (Open(topology, roots, here) && Under(here, 0, 256, p)))
  {
    var k := |prefix| + 1;
    ReachPrefix(topology, roots, p, k);
    assert p[..k] == prefix + [slot];
    if k < |p| {
      ReachPrefix(topology, roots, p, k + 1);
      assert Last(p[..k + 1]) == p[k];
    } else {
      assert p[..k] == p;
    }
  }

  /** An invisible slot contributes nothing. */
  lemma Invisible(topology: Topology, roots: int, prefix: Path, slot: int)
    requires prefix != [] && !Visible(topology, BusOf(topology, prefix), slot)
    ensures Exact(topology, roots, prefix, slot, slot + 1, [], None)
  {
    var here := prefix + [slot];
    assert Parent(here) == prefix && Last(here) == slot;
    forall p | Under(prefix, slot, slot + 1, p) ensures !Found(topology, roots, p) {
      if Found(topology, roots, p) {
        ThroughSlot(topology, roots, prefix, slot, p);
      }
    }
  }

  /** A function with no bus behind it: listed unless its layout is not recognised. */
  lemma Leaf(topology: Topology, roots: int, prefix: Path, slot: int)
    requires prefix != [] && Open(topology, roots, prefix) && Visible(topology, BusOf(topology, prefix), slot)
    requires !Bridge(topology[At(BusOf(topology, prefix), slot)])
    ensures var here := prefix + [slot];
      var fault := Fault(topology[At(BusOf(topology, prefix), slot)]);
      Exact(topology, roots, prefix, slot, slot + 1,
            if fault == Some(UnrecognisedHeaderType) then [] else [here], if fault.Some? then Some(here) else None)
  {
    var here := prefix + [slot];
    assert Parent(here) == prefix && Last(here) == slot;
    assert here[..|prefix|] == prefix;
    assert Under(prefix, slot, slot + 1, here) && Found(topology, roots, here);
    assert Target(topology, here) == At(BusOf(topology, prefix), slot);
    forall p | Under(prefix, slot, slot + 1, p) && Found(topology, roots, p) ensures p == here {
      ThroughSlot(topology, roots, prefix, slot, p);
    }
    assert !Less(here, here) by {
      if Less(here, here) {
        LessAsym(here, here);
      }
    }
    hide Under, Found, Less, Target;
  }

  /** A bridge comes first, then everything on the bus behind it. */
  lemma Behind(topology: Topology, roots: int, prefix: Path, slot: int, sub: seq<Path>, stop: Stop)
    requires prefix != [] && Open(topology, roots, prefix) && Visible(topology, BusOf(topology, prefix), slot)
    requires Bridge(topology[At(BusOf(topology, prefix), slot)])
    requires Exact(topology, roots, prefix + [slot], 0, 256, sub, stop)
    ensures Exact(topology, roots, prefix, slot, slot + 1, [prefix + [slot]] + sub, stop)
  {
    var here := prefix + [slot];
    assert Parent(here) == prefix && Last(here) == slot;
    assert here[..|prefix|] == prefix;
    assert Target(topology, here) == At(BusOf(topology, prefix), slot);
    assert Under(prefix, slot, slot + 1, here) && Found(topology, roots, here) && !HasFault(topology, here);
    forall p | Found(topology, roots, p)
      ensures Under(prefix, slot, slot + 1, p) <==> p == here || Under(here, 0, 256, p)
    {
      if Under(prefix, slot, slot + 1, p) {
        ThroughSlot(topology, roots, prefix, slot, p);
      }
      if Under(here, 0, 256, p) {
        assert p[..|prefix|] == p[..|here|][..|prefix|] == prefix;
        assert p[|prefix|] == p[..|here|][|prefix|] == slot;
      }
    }
    forall p | Under(here, 0, 256, p) ensures Less(here, p) {
      PrefixFirst(here, 0, 256, p);
    }
    hide Under, Found, Less, Target, HasFault, FaultAt;
    Prepend(topology, roots, here, sub, stop);
    assert forall p :: p in [here] + sub <==> p == here || p in sub;
  }

  lemma Prepend(topology: Topology, roots: int, here: Path, sub: seq<Path>, stop: Stop)
    requires Exact(topology, roots, here, 0, 256, sub, stop)
    requires forall p :: Under(here, 0, 256, p) ==> Less(here, p)
    ensures Sorted([here] + sub) && Before(here, stop)
  {
    hide Under, Found, Less, HasFault, FaultAt;
    var c := [here] + sub;
    forall i, j | 0 <= i < j < |c| ensures Less(c[i], c[j]) {
      assert c[j] == sub[j - 1] && sub[j - 1] in sub;
    }
  }

  /** A root bus has no function of its own. */
  lemma Root(topology: Topology, roots: int, bus: int, sub: seq<Path>, stop: Stop)
    requires 0 <= bus < roots && Exact(topology, roots, [bus], 0, 256, sub, stop)
    ensures Exact(topology, roots, [], bus, bus + 1, sub, stop)
  {
    forall p | Found(topology, roots, p) ensures Under([], bus, bus + 1, p) <==> Under([bus], 0, 256, p) {
      if Under([], bus, bus + 1, p) {
        ThroughSlot(topology, roots, [], bus, p);
        assert [] + [bus] == [bus];
      }
      if Under([bus], 0, 256, p) {
        assert p[0] == p[..1][0] == bus;
      }
    }
    hide Under, Found, Less, HasFault, FaultAt;
  }
}
