/** When the recursion over bridges ends: no path may come back to a bus that it has met. */
module PciLoops {
  import opened Collections
  import opened PciPaths

  /** The bus after the first `i` steps of a path. */
  function BusAfter(topology: Topology, p: Path, i: int): int
    requires 1 <= i <= |p|
  {
    BusOf(topology, p[..i])
  }

  /** The path comes back to the bus it met after `i` steps. */
  ghost predicate Returns(topology: Topology, roots: int, p: Path, i: int) {
    Open(topology, roots, p) && 1 <= i < |p| && BusAfter(topology, p, i) == BusOf(topology, p)
  }

  ghost predicate NoLoop(topology: Topology, roots: int) {
    forall p, i :: !Returns(topology, roots, p, i)
  }

  lemma BusRange(topology: Topology, roots: int, p: Path)
    requires Reach(topology, roots, p) && roots <= 256
    ensures 0 <= BusOf(topology, p) < 256
  {
  }

  lemma OpenPrefix(topology: Topology, roots: int, p: Path, i: int)
    requires Open(topology, roots, p) && 1 <= i <= |p|
    ensures Open(topology, roots, p[..i])
  {
    ReachPrefix(topology, roots, p, i);
    if i == |p| {
      assert p[..i] == p;
    }
  }

  /** The buses a path meets. */
  ghost function Buses(topology: Topology, p: Path): (b: seq<int>)
    requires p != []
    ensures |b| == |p|
    decreases |p|
  {
    (if |p| == 1 then [] else Buses(topology, Parent(p))) + [BusOf(topology, p)]
  }

  lemma {:induction false} BusesDiffer(topology: Topology, roots: int, p: Path)
    requires NoLoop(topology, roots) && Open(topology, roots, p) && roots <= 256
    ensures forall i :: 0 <= i < |p| ==> Buses(topology, p)[i] == BusAfter(topology, p, i + 1)
    ensures forall i :: 0 <= i < |p| ==> 0 <= Buses(topology, p)[i] < 256
    ensures NoDuplicates(Buses(topology, p))
    decreases |p|
  {
    BusRange(topology, roots, p);
    assert p[..|p|] == p;
    if |p| == 1 {
    } else {
      var a := Parent(p);
      OpenPrefix(topology, roots, p, |a|);
      BusesDiffer(topology, roots, a);
      var buses := Buses(topology, a);
      hide Open, BusOf, Buses;
      forall i | 0 <= i < |a| ensures buses[i] == BusAfter(topology, p, i + 1) != BusOf(topology, p) {
        assert a[..i + 1] == p[..i + 1];
        assert !Returns(topology, roots, p, i + 1);
      }
      NoDuplicatesAppend(buses, BusOf(topology, p));
      BusesStep(topology, p);
    }
  }

  lemma BusesStep(topology: Topology, p: Path)
    requires |p| >= 2
    ensures Buses(topology, p) == Buses(topology, Parent(p)) + [BusOf(topology, p)]
  {
  }

  /** Without loops a path meets each of the 256 buses at most once. */
  lemma PathBound(topology: Topology, roots: int, p: Path)
    requires NoLoop(topology, roots) && Open(topology, roots, p) && roots <= 256
    ensures |p| <= 256
  {
    hide NoLoop;
    BusesDiffer(topology, roots, p);
    Pigeonhole(Buses(topology, p), 256);
  }

  /** The rest of a path can be walked from any path that leads to the same bus. */
  lemma {:induction false} Transplant(topology: Topology, roots: int, q: Path, p: Path, i: int)
    requires Open(topology, roots, q) && Open(topology, roots, p) && 1 <= i <= |p|
    requires BusOf(topology, q) == BusAfter(topology, p, i)
    ensures Open(topology, roots, q + p[i..]) && BusOf(topology, q + p[i..]) == BusOf(topology, p)
    decreases |p|
  {
    if i == |p| {
      assert q + p[i..] == q && p[..i] == p;
    } else {
      var a := Parent(p);
      OpenPrefix(topology, roots, p, |p| - 1);
      assert a[..i] == p[..i];
      Transplant(topology, roots, q, a, i);
      var r := q + a[i..];
      var s := q + p[i..];
      assert p[i..] == a[i..] + [Last(p)];
      assert s == r + [Last(p)];
      assert Parent(s) == r && Last(s) == Last(p);
    }
  }

  /** A path that comes back can be made as long as one likes. */
  lemma {:induction false} Endless(topology: Topology, roots: int, p: Path, i: int, n: nat) returns (q: Path)
    requires Returns(topology, roots, p, i)
    ensures Open(topology, roots, q) && |q| >= n && BusOf(topology, q) == BusOf(topology, p)
    decreases n
  {
    if n == 0 {
      q := p;
    } else {
      var r := Endless(topology, roots, p, i, n - 1);
      Transplant(topology, roots, r, p, i);
      q := r + p[i..];
    }
  }

  ghost predicate Bounded(topology: Topology, roots: int, n: nat) {
    forall p :: Open(topology, roots, p) ==> |p| <= n
  }

  /** The nesting of bridges is bounded if and only if no path comes back to a bus. */
  lemma BoundedIffNoLoop(topology: Topology, roots: int)
    requires roots <= 256
    ensures (exists n :: Bounded(topology, roots, n)) <==> NoLoop(topology, roots)
  {
    if NoLoop(topology, roots) {
      forall p | Open(topology, roots, p) ensures |p| <= 256 {
        PathBound(topology, roots, p);
      }
      assert Bounded(topology, roots, 256);
    } else {
      var p, i :| Returns(topology, roots, p, i);
      forall n: nat ensures !Bounded(topology, roots, n) {
        var q := Endless(topology, roots, p, i, n + 1);
      }
    }
  }

  // ----- Bridges that lead upward -----

  /** Every reachable bridge leads to a bus above its own. */
  ghost predicate Upward(topology: Topology, roots: int) {
    forall p :: |p| >= 2 && Open(topology, roots, p) ==> BusOf(topology, Parent(p)) < BusOf(topology, p)
  }

  lemma {:induction false} UpwardGrows(topology: Topology, roots: int, p: Path, i: int)
    requires Upward(topology, roots) && Open(topology, roots, p) && 1 <= i < |p|
    ensures BusAfter(topology, p, i) < BusOf(topology, p)
    decreases |p|
  {
    var a := Parent(p);
    assert a[..i] == p[..i];
    if i == |p| - 1 {
    } else {
      OpenPrefix(topology, roots, p, |p| - 1);
      UpwardGrows(topology, roots, a, i);
    }
  }

  lemma UpwardNoLoop(topology: Topology, roots: int)
    requires Upward(topology, roots)
    ensures NoLoop(topology, roots)
  {
    forall p, i ensures !Returns(topology, roots, p, i) {
      if Open(topology, roots, p) && 1 <= i < |p| {
        UpwardGrows(topology, roots, p, i);
      }
    }
  }
}
