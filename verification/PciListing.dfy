/** What the finished list contains, and how often. */
module PciListing {
  import opened Collections
  import opened PciPaths
  import opened PciLoops
  import opened PciWalk
  import opened PciEnumeration

  // ----- The walk's outcome is determined -----

  /** A sorted list is determined by its elements. */
  lemma {:induction false} SortedUnique(a: seq<Path>, b: seq<Path>)
    requires Sorted(a) && Sorted(b) && forall p :: p in a <==> p in b
    ensures a == b
    decreases |a|
  {
    assert a == [] || a[0] in a;
    assert b == [] || b[0] in b;
    if a == [] {
    } else {
      SameHead(a, b);
      forall p ensures p in a[1..] <==> p in b[1..] {
        NotLater(a);
        NotLater(b);
        assert p in a <==> p == a[0] || p in a[1..];
        assert p in b <==> p == b[0] || p in b[1..];
      }
      SortedUnique(a[1..], b[1..]);
      assert a == [a[0]] + a[1..] && b == [b[0]] + b[1..];
    }
  }

  lemma NotLater(a: seq<Path>)
    requires Sorted(a) && a != []
    ensures a[0] !in a[1..]
  {
    forall j | 1 <= j < |a| ensures a[j] != a[0] {
      LessAsym(a[0], a[j]);
    }
  }

  lemma SameHead(a: seq<Path>, b: seq<Path>)
    requires Sorted(a) && Sorted(b) && a != [] && b != [] && forall p :: p in a <==> p in b
    ensures a[0] == b[0]
  {
    assert a[0] in b && b[0] in a;
    var i :| 0 <= i < |b| && b[i] == a[0];
    var j :| 0 <= j < |a| && a[j] == b[0];
    if i > 0 && j > 0 {
      LessAsym(a[0], a[j]);
    }
  }

  /** Topology and range leave no choice: at most one list and stop are exact. */
  lemma ExactUnique(topology: Topology, roots: int, prefix: Path, lo: int, hi: int,
                    a: seq<Path>, s: Stop, b: seq<Path>, t: Stop)
    requires Exact(topology, roots, prefix, lo, hi, a, s) && Exact(topology, roots, prefix, lo, hi, b, t)
    ensures a == b && s == t
  {
    hide Under, Found, HasFault, Less, FaultAt, Sorted;
    assert s == t by {
      if s.Some? && t.Some? {
        var p, q := s.value, t.value;
        assert !Before(p, t) && !Before(q, s);
        Total(p, q);
      }
    }
    SortedUnique(a, b);
  }

  lemma {:induction false} Total(p: Path, q: Path)
    ensures Less(p, q) || Less(q, p) || p == q
  {
    TotalFrom(p, q, 0);
  }

  lemma {:induction false} TotalFrom(p: Path, q: Path, k: int)
    requires 0 <= k <= |p| && k <= |q| && forall i :: 0 <= i < k ==> p[i] == q[i]
    ensures Less(p, q) || Less(q, p) || p == q
    decreases |p| - k
  {
    if k < |p| && k < |q| && p[k] == q[k] {
      TotalFrom(p, q, k + 1);
    } else if k < |q| && (k == |p| || p[k] < q[k]) {
      assert Diverge(p, q, k);
    } else if k < |p| {
      assert Diverge(q, p, k);
    }
  }

  // ----- Each function once -----

  /** Two different paths lead to the same bus, and it is not empty. */
  ghost predicate SharedAt(topology: Topology, roots: int, p: Path, q: Path, slot: int) {
    && Open(topology, roots, p) && Open(topology, roots, q) && p != q && BusOf(topology, p) == BusOf(topology, q)
    && Visible(topology, BusOf(topology, p), slot)
  }

  ghost predicate Shared(topology: Topology, roots: int) {
    exists p, q, slot :: SharedAt(topology, roots, p, q, slot)
  }

  lemma AtInjective(bus: int, slot: int, bus': int, slot': int)
    requires At(bus, slot) == At(bus', slot')
    ensures bus == bus' && slot == slot'
  {
  }

  /** A function is reached by one path, unless two paths lead to its bus. */
  lemma PathUnique(topology: Topology, roots: int, p: Path, q: Path)
    requires !Shared(topology, roots)
    requires Found(topology, roots, p) && Found(topology, roots, q) && Target(topology, p) == Target(topology, q)
    ensures p == q
  {
    var a, b := Parent(p), Parent(q);
    AtInjective(BusOf(topology, a), Last(p), BusOf(topology, b), Last(q));
    assert p == a + [Last(p)] && q == b + [Last(q)];
    assert !SharedAt(topology, roots, a, b, Last(p));
  }

  /** A walk that ran to its end listed exactly the functions that some path reaches, and each of them
      once exactly when no two paths lead to the same non-empty bus. */
  lemma ListedOnce(topology: Topology, roots: int, paths: seq<Path>, list: seq<BusDeviceFunction>)
    requires Exact(topology, roots, [], 0, roots, paths, None) && Walked(topology, [], list, paths)
    ensures forall f :: f in list <==> exists p :: Found(topology, roots, p) && Target(topology, p) == f
    ensures NoDuplicates(list) <==> !Shared(topology, roots)
  {
    AllFound(topology, roots, paths, list);
    if Shared(topology, roots) {
      SharedRepeats(topology, roots, paths, list);
    } else {
      forall i, j | 0 <= i < j < |list| ensures list[i] != list[j] {
        assert paths[i] in paths && paths[j] in paths;
        assert list[i] == Target(topology, paths[i]) && list[j] == Target(topology, paths[j]);
        LessAsym(paths[i], paths[j]);
        if list[i] == list[j] {
          PathUnique(topology, roots, paths[i], paths[j]);
        }
      }
    }
  }

  lemma RootRange(topology: Topology, roots: int, p: Path)
    requires Reach(topology, roots, p)
    ensures Under([], 0, roots, p)
  {
    ReachPrefix(topology, roots, p, 1);
    assert p[..1] == [p[0]];
  }

  lemma AllFound(topology: Topology, roots: int, paths: seq<Path>, list: seq<BusDeviceFunction>)
    requires Exact(topology, roots, [], 0, roots, paths, None) && Walked(topology, [], list, paths)
    ensures forall p :: p in paths <==> Found(topology, roots, p)
    ensures forall f :: f in list <==> exists p :: Found(topology, roots, p) && Target(topology, p) == f
  {
    forall p ensures p in paths <==> Found(topology, roots, p) {
      if Found(topology, roots, p) {
        RootRange(topology, roots, p);
      }
    }
    hide Reach, Target, Exact;
    forall f ensures f in list <==> exists p :: Found(topology, roots, p) && Target(topology, p) == f {
      if f in list {
        var i :| 0 <= i < |list| && list[i] == f;
        assert list[i] == Target(topology, paths[i]);
        assert paths[i] in paths;
      }
      if p :| Found(topology, roots, p) && Target(topology, p) == f {
        var i :| 0 <= i < |paths| && paths[i] == p;
        assert list[i] == f;
      }
    }
  }

  lemma SharedRepeats(topology: Topology, roots: int, paths: seq<Path>, list: seq<BusDeviceFunction>)
    requires Exact(topology, roots, [], 0, roots, paths, None) && Walked(topology, [], list, paths)
    requires Shared(topology, roots)
    ensures !NoDuplicates(list)
  {
    var p, q, slot :| SharedAt(topology, roots, p, q, slot);
    var a, b := p + [slot], q + [slot];
    assert Parent(a) == p && Parent(b) == q && Last(a) == Last(b) == slot;
    assert Found(topology, roots, a) && Found(topology, roots, b);
    assert Target(topology, a) == Target(topology, b);
    AllFound(topology, roots, paths, list);
    var i :| 0 <= i < |paths| && paths[i] == a;
    var j :| 0 <= j < |paths| && paths[j] == b;
    assert list[i] == list[j];
  }

  // ----- Distinct secondary buses -----

  ghost predicate DistinctSecondaries(topology: Topology) {
    forall f, g :: f in topology && g in topology && Bridge(topology[f]) && Bridge(topology[g]) && f != g ==>
      topology[f].secondaryBus != topology[g].secondaryBus
  }

  /** A reachable bridge leads to a root bus. */
  ghost predicate Clash(topology: Topology, roots: int) {
    exists p :: ClashAt(topology, roots, p)
  }

  ghost predicate ClashAt(topology: Topology, roots: int, p: Path) {
    |p| >= 2 && Open(topology, roots, p) && 0 <= BusOf(topology, p) < roots
  }

  lemma OpenBus(topology: Topology, roots: int, p: Path)
    requires |p| >= 2 && Open(topology, roots, p)
    ensures var f := Target(topology, p);
      && f in topology && Bridge(topology[f]) && BusOf(topology, p) == topology[f].secondaryBus
      && Found(topology, roots, p)
  {
  }

  /** With distinct secondary buses, only a bridge back to a root bus gives a bus two paths. */
  lemma {:induction false} BusUnique(topology: Topology, roots: int, p: Path, q: Path)
    requires DistinctSecondaries(topology) && !Clash(topology, roots)
    requires Open(topology, roots, p) && Open(topology, roots, q) && BusOf(topology, p) == BusOf(topology, q)
    ensures p == q
    decreases |p|
  {
    assert !ClashAt(topology, roots, p) && !ClashAt(topology, roots, q);
    if |p| == 1 || |q| == 1 {
      assert p == [p[0]] && q == [q[0]];
    } else {
      OpenBus(topology, roots, p);
      OpenBus(topology, roots, q);
      var a, b := Parent(p), Parent(q);
      AtInjective(BusOf(topology, a), Last(p), BusOf(topology, b), Last(q));
      FoundPresent(topology, roots, p);
      FoundPresent(topology, roots, q);
      BusUnique(topology, roots, a, b);
      assert p == a + [Last(p)] && q == b + [Last(q)];
    }
  }

  lemma DistinctNotShared(topology: Topology, roots: int)
    requires DistinctSecondaries(topology) && !Clash(topology, roots)
    ensures !Shared(topology, roots)
  {
    forall p, q, slot ensures !SharedAt(topology, roots, p, q, slot) {
      if Open(topology, roots, p) && Open(topology, roots, q) && BusOf(topology, p) == BusOf(topology, q) {
        BusUnique(topology, roots, p, q);
      }
    }
  }

  /** With a single-function host, a walk that ends never leads back to bus 0. */
  lemma SingleRootNoClash(topology: Topology)
    requires NoLoop(topology, 1)
    ensures !Clash(topology, 1)
  {
    forall p ensures !ClashAt(topology, 1, p) {
      if |p| >= 2 && Open(topology, 1, p) {
        RootOfPath(topology, 1, p);
        assert !Returns(topology, 1, p, 1);
      }
    }
  }

  lemma RootOfPath(topology: Topology, roots: int, p: Path)
    requires Open(topology, roots, p)
    ensures 0 <= BusAfter(topology, p, 1) < roots
  {
    ReachPrefix(topology, roots, p, 1);
    assert p[..1] == [p[0]];
    RootOpen(topology, roots, p[0]);
  }

  /** So for a single-function host, distinct secondary buses and no loop, a completed walk lists every
      reachable function exactly once. */
  lemma SingleHostOnce(topology: Topology, paths: seq<Path>, list: seq<BusDeviceFunction>)
    requires DistinctSecondaries(topology) && NoLoop(topology, 1)
    requires Exact(topology, 1, [], 0, 1, paths, None) && Walked(topology, [], list, paths)
    ensures NoDuplicates(list)
    ensures forall f :: f in list <==> exists p :: Found(topology, 1, p) && Target(topology, p) == f
  {
    SingleRootNoClash(topology);
    DistinctNotShared(topology, 1);
    ListedOnce(topology, 1, paths, list);
  }

  /** A multi-function host with a bridge to bus 1 and a device there: the device is listed twice. */
  lemma MultiFunctionHostRepeats(list: seq<BusDeviceFunction>, paths: seq<Path>, stop: Stop)
    requires Exact(TwoBuses(), Roots(TwoBuses()), [], 0, Roots(TwoBuses()), paths, stop)
    requires Walked(TwoBuses(), [], list, paths)
    ensures Upward(TwoBuses(), Roots(TwoBuses())) && DistinctSecondaries(TwoBuses())
    ensures stop.None? && !NoDuplicates(list)
  {
    var t := TwoBuses();
    assert forall p :: !HasFault(t, p);
    assert Roots(t) == 8;
    TwoBusesUpward();
    var p := [0, 8];
    assert Parent(p) == [0] && Last(p) == 8;
    assert At(0, 8) == BusDeviceFunction(0, 1, 0) && At(1, 0) == BusDeviceFunction(1, 0, 0);
    RootOpen(t, 8, 0);
    assert Target(t, p) == BusDeviceFunction(0, 1, 0) && BusOf(t, p) == 1;
    RootOpen(t, 8, 1);
    assert SharedAt(t, 8, p, [1], 0);
    SharedRepeats(t, 8, paths, list);
  }

  lemma TwoBusesUpward()
    ensures Upward(TwoBuses(), 8)
  {
    var t := TwoBuses();
    forall p | |p| >= 2 && Open(t, 8, p) ensures BusOf(t, Parent(p)) < BusOf(t, p) {
      OpenBus(t, 8, p);
      var f := Target(t, p);
      assert f == BusDeviceFunction(0, 1, 0) && f.bus == BusOf(t, Parent(p));
    }
  }

  ghost function TwoBuses(): Topology {
    map[BusDeviceFunction(0, 0, 0) := Header(0x80, 0x06, 0x00, 0),
        BusDeviceFunction(0, 1, 0) := Header(0x01, 0x06, 0x04, 1),
        BusDeviceFunction(1, 0, 0) := Header(0x00, 0x01, 0x08, 0)]
  }
}
