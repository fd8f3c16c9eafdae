/** The functions of a PCI topology that the bus walk can reach, as paths, and their depth-first order. */
module PciPaths {
  import opened Collections

  type Byte = x: int | 0 <= x < 256

  datatype BusDeviceFunction = BusDeviceFunction(bus: int, device: int, func: int)

  /** The configuration bytes that decide the walk. */
  datatype Header = Header(headerType: Byte, classCode: Byte, subclass: Byte, secondaryBus: Byte)

  /** The functions that answer with a vendor other than 0xffff. */
  type Topology = map<BusDeviceFunction, Header>

  datatype PciError = GetWrongHeader | UnrecognisedHeaderType | PciDeviceStructureTransformError

  predicate MultiFunction(h: Header) {
    h.headerType >= 0x80
  }

  /** The layout, `header_type & 0x7f`. */
  function Layout(h: Header): int {
    h.headerType % 0x80
  }

  predicate BridgeClass(h: Header) {
    h.classCode == 0x06 && (h.subclass == 0x04 || h.subclass == 0x09)
  }

  predicate Bridge(h: Header) {
    Layout(h) == 1 && BridgeClass(h)
  }

  /** What reading or descending into a function fails with. */
  function Fault(h: Header): Option<PciError> {
    if Layout(h) > 2 then Some(UnrecognisedHeaderType)
    else if BridgeClass(h) && Layout(h) != 1 then Some(PciDeviceStructureTransformError)
    else None
  }

  // ----- Paths -----

  /** The root bus, then the slot, 8 * device + function, taken on every bus. */
  type Path = seq<int>

  function At(bus: int, slot: int): BusDeviceFunction {
    BusDeviceFunction(bus, slot / 8, slot % 8)
  }

  /** The function answers, and it is function 0 or function 0 says that there are more. */
  predicate Visible(topology: Topology, bus: int, slot: int) {
    && 0 <= slot < 256 && At(bus, slot) in topology
    && (slot % 8 == 0 || (var first := BusDeviceFunction(bus, slot / 8, 0);
                          first in topology && MultiFunction(topology[first])))
  }

  function Secondary(topology: Topology, f: BusDeviceFunction): int {
    if f in topology then topology[f].secondaryBus else 0
  }

  function Parent(p: Path): Path
    requires p != []
  {
    p[..|p| - 1]
  }

  function Last(p: Path): int
    requires p != []
  {
    p[|p| - 1]
  }

  /** The bus that lies behind a path. */
  function BusOf(topology: Topology, p: Path): int
    requires p != []
    decreases |p|
  {
    if |p| == 1 then p[0] else Secondary(topology, At(BusOf(topology, Parent(p)), Last(p)))
  }

  /** The function that a path names. */
  function Target(topology: Topology, p: Path): BusDeviceFunction
    requires |p| >= 2
  {
    At(BusOf(topology, Parent(p)), Last(p))
  }

  /** The root buses are 0 to `roots - 1`; every step goes to a visible function, through bridges. */
  predicate Reach(topology: Topology, roots: int, p: Path): (b: bool)
    ensures b ==> p != []
    decreases |p|, 0
  {
    && p != []
    && if |p| == 1 then 0 <= p[0] < roots
       else Open(topology, roots, Parent(p)) && Visible(topology, BusOf(topology, Parent(p)), Last(p))
  }

  /** There is a bus behind the path. */
  predicate Open(topology: Topology, roots: int, p: Path): (b: bool)
    ensures b ==> p != []
    decreases |p|, 1
  {
    Reach(topology, roots, p) && (|p| >= 2 ==> Target(topology, p) in topology && Bridge(topology[Target(topology, p)]))
  }

  /** A reachable function. */
  predicate Found(topology: Topology, roots: int, p: Path) {
    |p| >= 2 && Reach(topology, roots, p)
  }

  lemma RootOpen(topology: Topology, roots: int, bus: int)
    requires 0 <= bus < roots
    ensures Open(topology, roots, [bus]) && BusOf(topology, [bus]) == bus
  {
    var p := [bus];
    assert |p| == 1 && p[0] == bus;
  }

  lemma FoundPresent(topology: Topology, roots: int, p: Path)
    requires Found(topology, roots, p)
    ensures Target(topology, p) in topology && Open(topology, roots, Parent(p))
  {
  }

  lemma {:induction false} ReachPrefix(topology: Topology, roots: int, p: Path, k: int)
    requires Reach(topology, roots, p) && 1 <= k <= |p|
    ensures Reach(topology, roots, p[..k]) && (k < |p| ==> Open(topology, roots, p[..k]))
    decreases |p|
  {
    if k == |p| {
      assert p[..k] == p;
    } else {
      ReachPrefix(topology, roots, Parent(p), k);
      assert Parent(p)[..k] == p[..k];
      if k == |p| - 1 {
        assert p[..k] == Parent(p);
      }
    }
  }

  // ----- Order -----

  /** The paths agree before `k`, and there `p` ends or takes the lower slot. */
  ghost predicate Diverge(p: Path, q: Path, k: int) {
    0 <= k <= |p| && k < |q| && (forall i :: 0 <= i < k ==> p[i] == q[i]) && (k == |p| || p[k] < q[k])
  }

  /** Depth first: a path comes before its extensions, and siblings go by slot. */
  ghost predicate Less(p: Path, q: Path) {
    exists k :: Diverge(p, q, k)
  }

  lemma LessAsym(p: Path, q: Path)
    requires Less(p, q)
    ensures !Less(q, p) && p != q
  {
    var k :| Diverge(p, q, k);
    assert forall j :: !Diverge(q, p, j);
    assert p == q ==> Diverge(q, p, k);
  }

  ghost predicate Sorted(paths: seq<Path>) {
    forall i, j :: 0 <= i < j < |paths| ==> Less(paths[i], paths[j])
  }

  /** The paths through `prefix` whose next step is in a range. */
  ghost predicate Under(prefix: Path, lo: int, hi: int, p: Path) {
    |p| > |prefix| && p[..|prefix|] == prefix && lo <= p[|prefix|] < hi
  }

  lemma RangesOrdered(prefix: Path, lo: int, mid: int, hi: int, p: Path, q: Path)
    requires Under(prefix, lo, mid, p) && Under(prefix, mid, hi, q)
    ensures Less(p, q)
  {
    assert Diverge(p, q, |prefix|);
  }

  lemma PrefixFirst(prefix: Path, lo: int, hi: int, q: Path)
    requires Under(prefix, lo, hi, q)
    ensures Less(prefix, q)
  {
    assert Diverge(prefix, q, |prefix|);
  }
}
