/** Start-up of the frame allocator from the boot loader's memory map. */
module FrameInit {
  import opened Collections
  import opened Bitmaps
  import opened FrameAllocator
  import FrameRuns

  datatype Region = Region(base: nat, length: nat, usable: bool)

  const USIZE_MAX: nat := 0xFFFF_FFFF_FFFF_FFFF

  /** Regions are sorted and disjoint, and usable ones page-aligned, as the boot protocol promises. */
  ghost predicate ValidMap(regions: seq<Region>) {
    && |regions| > 0
    && (forall i, j :: 0 <= i < j < |regions| ==> regions[i].base + regions[i].length <= regions[j].base)
    && (forall i :: 0 <= i < |regions| && regions[i].usable ==>
          regions[i].base % FRAME == 0 && regions[i].length % FRAME == 0)
    && MemorySize(regions) <= USIZE_MAX
  }

  function MemorySize(regions: seq<Region>): nat
    requires |regions| > 0
  {
    regions[|regions| - 1].base + regions[|regions| - 1].length
  }

  function DivCeil(n: nat, d: nat): nat
    requires d > 0
  {
    (n + d - 1) / d
  }

  /** Bytes of bitmap: one bit a frame of memory. */
  function BitmapSize(regions: seq<Region>): nat
    requires |regions| > 0
  {
    DivCeil(MemorySize(regions) / FRAME, 8)
  }

  ghost predicate InRegion(r: Region, i: int) {
    r.usable && r.base / FRAME <= i < r.base / FRAME + r.length / FRAME
  }

  /** Frame `i` lies in one of the first `n` regions that is usable. */
  ghost predicate UsableFrame(regions: seq<Region>, n: nat, i: int)
    requires n <= |regions|
  {
    exists j :: 0 <= j < n && InRegion(regions[j], i)
  }

  /** Region `b` is the first usable one that can hold the bitmap. */
  ghost predicate HoldsBitmap(regions: seq<Region>, b: nat)
    requires |regions| > 0
  {
    && b < |regions| && regions[b].usable && regions[b].length >= BitmapSize(regions)
    && forall j :: 0 <= j < b && regions[j].usable ==> regions[j].length < BitmapSize(regions)
  }

  /** The bitmap is the shortest one with a bit for each whole frame below the end of memory. */
  lemma BitmapShortest(regions: seq<Region>, i: nat)
    requires |regions| > 0
    ensures var bytes, memory := BitmapSize(regions), regions[|regions| - 1].base + regions[|regions| - 1].length;
      && (4096 * (i + 1) <= memory ==> i < 8 * bytes)
      && (bytes > 0 ==> 4096 * (8 * (bytes - 1) + 1) <= memory)
  {
    var memory := MemorySize(regions);
    var frames := memory / 4096;
    assert 4096 * frames <= memory < 4096 * frames + 4096;
    assert 8 * (BitmapSize(regions) - 1) < frames <= 8 * BitmapSize(regions);
  }

  /** The 4096 bytes of frame `i` lie in the region. */
  ghost predicate FrameIn(r: Region, i: int) {
    r.usable && r.base <= 4096 * i && 4096 * (i + 1) <= r.base + r.length
  }

  /** A frame counts as usable exactly when all its bytes lie in one usable region. */
  lemma UsableMemory(regions: seq<Region>, i: int)
    requires ValidMap(regions)
    ensures UsableFrame(regions, |regions|, i) <==> exists j :: 0 <= j < |regions| && FrameIn(regions[j], i)
  {
    forall j | 0 <= j < |regions| ensures InRegion(regions[j], i) <==> FrameIn(regions[j], i) {
      if regions[j].usable {
        WholeFrames(regions[j], i);
      }
    }
    hide InRegion, FrameIn, ValidMap;
  }

  lemma WholeFrames(r: Region, i: int)
    requires r.usable && r.base % FRAME == 0 && r.length % FRAME == 0
    ensures InRegion(r, i) <==> FrameIn(r, i)
  {
    var b, l := r.base / 4096, r.length / 4096;
    assert r.base == 4096 * b && r.length == 4096 * l;
  }

  // ----- Counting set bits -----

  ghost function SetBits(bits: seq<bool>): nat {
    if bits == [] then 0
    else SetBits(bits[..|bits| - 1]) + if bits[|bits| - 1] then 1 else 0
  }

  lemma {:induction false} SetBitsUpdate(bits: seq<bool>, i: nat, value: bool)
    requires i < |bits|
    ensures SetBits(bits[i := value]) == SetBits(bits) - (if bits[i] then 1 else 0) + if value then 1 else 0
    decreases |bits|
  {
    var m := |bits| - 1;
    if i < m {
      assert bits[i := value][..m] == bits[..m][i := value];
      SetBitsUpdate(bits[..m], i, value);
    } else {
      assert bits[i := value][..m] == bits[..m];
    }
  }

  lemma {:induction false} NoSetBits(bits: seq<bool>)
    requires forall i :: 0 <= i < |bits| ==> !bits[i]
    ensures SetBits(bits) == 0
    decreases |bits|
  {
    if bits == [] {
    } else {
      NoSetBits(bits[..|bits| - 1]);
    }
  }

  lemma FillNext(bits: seq<bool>, lo: nat, hi: nat, value: bool)
    requires lo < hi <= |bits|
    ensures Fill(bits, lo, hi, value) == Fill(bits, lo, hi - 1, value)[hi - 1 := value]
    ensures Fill(bits, lo, hi - 1, value)[hi - 1] == bits[hi - 1]
  {
  }

  /** Filling a range that held the other value changes the count by its length. */
  lemma {:induction false} FillCount(bits: seq<bool>, lo: nat, hi: nat, value: bool)
    requires lo <= hi <= |bits| && forall k :: lo <= k < hi ==> bits[k] != value
    ensures SetBits(Fill(bits, lo, hi, value)) == SetBits(bits) + if value then hi - lo else lo - hi
    decreases hi - lo
  {
    if lo == hi {
      assert Fill(bits, lo, hi, value) == bits;
    } else {
      hide SetBits, Fill;
      FillCount(bits, lo, hi - 1, value);
      FillNext(bits, lo, hi, value);
      SetBitsUpdate(Fill(bits, lo, hi - 1, value), hi - 1, value);
    }
  }

  // ----- Where regions lie -----

  /** Every frame of a usable region has a bit. */
  lemma RegionFits(regions: seq<Region>, j: nat)
    requires ValidMap(regions) && j < |regions| && regions[j].usable
    ensures regions[j].base / FRAME + regions[j].length / FRAME <= 8 * BitmapSize(regions)
    ensures regions[j].base / FRAME <= USIZE_MAX
  {
    var last := |regions| - 1;
    assert j < last ==> regions[j].base + regions[j].length <= regions[last].base;
    assert regions[j].base + regions[j].length <= MemorySize(regions);
  }

  /** The frames of a region are in no earlier one. */
  lemma RegionNew(regions: seq<Region>, j: nat, i: int)
    requires ValidMap(regions) && j < |regions| && InRegion(regions[j], i)
    ensures !UsableFrame(regions, j, i)
  {
    forall k | 0 <= k < j ensures !InRegion(regions[k], i) {
      assert regions[k].base + regions[k].length <= regions[j].base;
    }
  }

  lemma UsableNext(regions: seq<Region>, n: nat, i: int)
    requires n < |regions|
    ensures UsableFrame(regions, n + 1, i) <==> UsableFrame(regions, n, i) || InRegion(regions[n], i)
  {
    if UsableFrame(regions, n, i) {
      var j :| 0 <= j < n && InRegion(regions[j], i);
    }
  }

  ghost predicate Marked(regions: seq<Region>, n: nat, bits: seq<bool>)
    requires n <= |regions|
  {
    forall i :: 0 <= i < |bits| ==> (bits[i] <==> UsableFrame(regions, n, i))
  }

  /** Marking a region's frames extends the map by that region and counts all of them. */
  lemma MarkRegion(regions: seq<Region>, n: nat, bits: seq<bool>)
    requires ValidMap(regions) && n < |regions| && regions[n].usable
    requires |bits| == 8 * BitmapSize(regions) && Marked(regions, n, bits)
    ensures var lo, c := regions[n].base / FRAME, regions[n].length / FRAME;
      && lo + c <= |bits| && Marked(regions, n + 1, Fill(bits, lo, lo + c, true))
      && SetBits(Fill(bits, lo, lo + c, true)) == SetBits(bits) + c
  {
    hide SetBits, Fill, BitmapSize, ValidMap, UsableFrame;
    RegionFits(regions, n);
    var lo, c := regions[n].base / FRAME, regions[n].length / FRAME;
    forall k | lo <= k < lo + c ensures !bits[k] {
      assert InRegion(regions[n], k);
      RegionNew(regions, n, k);
    }
    FillCount(bits, lo, lo + c, true);
    var filled := Fill(bits, lo, lo + c, true);
    forall i | 0 <= i < |bits| ensures filled[i] <==> UsableFrame(regions, n + 1, i) {
      UsableNext(regions, n, i);
    }
  }

  lemma SkipRegion(regions: seq<Region>, n: nat, bits: seq<bool>)
    requires n < |regions| && !regions[n].usable && Marked(regions, n, bits)
    ensures Marked(regions, n + 1, bits)
  {
    forall i | 0 <= i < |bits| ensures bits[i] <==> UsableFrame(regions, n + 1, i) {
      UsableNext(regions, n, i);
    }
  }

  /** Lowest first frame of the usable regions among the first `n`. */
  ghost predicate Lowest(regions: seq<Region>, n: nat, next: nat)
    requires n <= |regions|
  {
    && (forall j :: 0 <= j < n && regions[j].usable ==> next <= regions[j].base / FRAME)
    && (next == USIZE_MAX || exists j :: 0 <= j < n && regions[j].usable && next == regions[j].base / FRAME)
  }

  /** Clearing the bitmap's own frames leaves the rest and takes their number off the count. */
  lemma TakeBitmap(regions: seq<Region>, b: nat, bits: seq<bool>)
    requires ValidMap(regions) && HoldsBitmap(regions, b)
    requires |bits| == 8 * BitmapSize(regions) && Marked(regions, |regions|, bits)
    ensures var lo, c := regions[b].base / FRAME, DivCeil(BitmapSize(regions), FRAME);
      && lo + c <= |bits| && c <= SetBits(bits)
      && SetBits(Fill(bits, lo, lo + c, false)) == SetBits(bits) - c
  {
    hide SetBits, Fill, BitmapSize;
    var lo, c := regions[b].base / FRAME, DivCeil(BitmapSize(regions), FRAME);
    BitmapFits(regions, b);
    hide ValidMap, DivCeil, HoldsBitmap;
    RegionFits(regions, b);
    forall k | lo <= k < lo + c ensures bits[k] {
      assert InRegion(regions[b], k);
    }
    FillCount(bits, lo, lo + c, false);
  }

  /** The frames of the bitmap are whole frames of the region that holds it. */
  lemma BitmapFits(regions: seq<Region>, b: nat)
    requires ValidMap(regions) && HoldsBitmap(regions, b)
    ensures regions[b].usable && DivCeil(BitmapSize(regions), FRAME) <= regions[b].length / FRAME
  {
    hide BitmapSize;
  }

  // ----- init -----

  /** The state `init` hands over, in terms of the memory map. */
  ghost predicate Initialized(s: State, regions: seq<Region>, b: nat)
    requires |regions| > 0 && b < |regions|
  {
    var lo, c := regions[b].base / FRAME, DivCeil(BitmapSize(regions), FRAME);
    && WellFormed(s) && s.len == BitmapSize(regions)
    && (forall i :: 0 <= i < |s.bits| ==> (s.bits[i] <==> UsableFrame(regions, |regions|, i) && !(lo <= i < lo + c)))
    && s.usable == SetBits(s.bits)
    && exists low :: Lowest(regions, |regions|, low) && s.next == if low == lo then lo + c + 1 else low
  }

  /** Finds the first usable region that is large enough for the bitmap. */
  method FindBitmapRegion(regions: seq<Region>, size: nat) returns (b: nat)
    requires exists j :: 0 <= j < |regions| && regions[j].usable && regions[j].length >= size
    ensures b < |regions| && regions[b].usable && regions[b].length >= size
    ensures forall j :: 0 <= j < b && regions[j].usable ==> regions[j].length < size
  {
    b := 0;
    while !(regions[b].usable && regions[b].length >= size)
      invariant 0 <= b < |regions|
      invariant forall j :: 0 <= j < b && regions[j].usable ==> regions[j].length < size
      invariant exists j :: b <= j < |regions| && regions[j].usable && regions[j].length >= size
      decreases |regions| - b
    {
      b := b + 1;
    }
  }

  /** `init`, for a map with a region that can hold the bitmap (otherwise the code panics).  A bit is
      set exactly when its frame is usable and not part of the bitmap, and the counter is the number
      of set bits; its assertion and its subtraction never fail. */
  method Init(regions: seq<Region>) returns (a: BitmapFrameAllocator, ghost b: nat)
    requires ValidMap(regions)
    requires exists j :: 0 <= j < |regions| && regions[j].usable && regions[j].length >= BitmapSize(regions)
    ensures a.Valid() && HoldsBitmap(regions, b) && Initialized(a.View(), regions, b)
  {
    hide SetBits, Marked, UsableFrame, Bits, Fill, Lowest, ValidMap, BitmapSize;
    var bitmapSize := BitmapSize(regions);
    var region := FindBitmapRegion(regions, bitmapSize);
    b := region;
    var bitmap := new Bitmap(bitmapSize);
    a := new BitmapFrameAllocator(bitmap, 0, USIZE_MAX);
    NothingMarked(regions, bitmap.bits);
    var j := 0;
    while j < |regions|
      invariant 0 <= j <= |regions| && a.Valid() && fresh(a) && fresh(a.bitmap) && fresh(a.bitmap.inner)
      invariant a.bitmap.Len() == bitmapSize && |a.bitmap.bits| == 8 * bitmapSize
      invariant Marked(regions, j, a.bitmap.bits) && a.usableFrames == SetBits(a.bitmap.bits)
      invariant Lowest(regions, j, a.nextFrame)
    {
      MarkNext(a, regions, j);
      j := j + 1;
    }
    TakeOut(a, regions, region);
  }

  /** The end of `init`: takes the bitmap's own frames out of the pool. */
  method TakeOut(a: BitmapFrameAllocator, regions: seq<Region>, b: nat)
    requires ValidMap(regions) && HoldsBitmap(regions, b) && a.Valid()
    requires a.bitmap.Len() == BitmapSize(regions) && |a.bitmap.bits| == 8 * BitmapSize(regions)
    requires Marked(regions, |regions|, a.bitmap.bits) && a.usableFrames == SetBits(a.bitmap.bits)
    requires Lowest(regions, |regions|, a.nextFrame)
    modifies a, a.bitmap, a.bitmap.inner
    ensures a.Valid() && Initialized(a.View(), regions, b)
  {
    hide SetBits, Marked, UsableFrame, Bits, Fill, BitmapSize, ValidMap;
    var start, count := regions[b].base / FRAME, DivCeil(BitmapSize(regions), FRAME);
    ghost var marked, low := a.bitmap.bits, a.nextFrame;
    TakeBitmap(regions, b, marked);
    Assembled(regions, b, marked);
    assert a.nextFrame <= start;
    if a.nextFrame == start {
      a.nextFrame := start + count + 1;
    }
    a.usableFrames := a.usableFrames - count;
    a.FillRange(start, start + count, false);
  }

  /** One pass of the loop over the usable regions. */
  method MarkNext(a: BitmapFrameAllocator, regions: seq<Region>, j: nat)
    requires ValidMap(regions) && j < |regions| && a.Valid()
    requires a.bitmap.Len() == BitmapSize(regions) && |a.bitmap.bits| == 8 * BitmapSize(regions)
    requires Marked(regions, j, a.bitmap.bits) && a.usableFrames == SetBits(a.bitmap.bits)
    requires Lowest(regions, j, a.nextFrame)
    modifies a, a.bitmap, a.bitmap.inner
    ensures a.Valid() && |a.bitmap.bits| == 8 * BitmapSize(regions)
    ensures Marked(regions, j + 1, a.bitmap.bits) && a.usableFrames == SetBits(a.bitmap.bits)
    ensures Lowest(regions, j + 1, a.nextFrame)
  {
    hide SetBits, Marked, UsableFrame, Bits, Fill;
    if regions[j].usable {
      MarkRegion(regions, j, a.bitmap.bits);
      RegionFits(regions, j);
      var start, count := regions[j].base / FRAME, regions[j].length / FRAME;
      a.usableFrames := a.usableFrames + count;
      a.nextFrame := if start < a.nextFrame then start else a.nextFrame;
      a.FillRange(start, start + count, true);
    } else {
      SkipRegion(regions, j, a.bitmap.bits);
    }
  }

  lemma NothingMarked(regions: seq<Region>, bits: seq<bool>)
    requires forall i :: 0 <= i < |bits| ==> !bits[i]
    ensures Marked(regions, 0, bits) && SetBits(bits) == 0 && Lowest(regions, 0, USIZE_MAX)
  {
    NoSetBits(bits);
  }

  lemma Assembled(regions: seq<Region>, b: nat, marked: seq<bool>)
    requires ValidMap(regions) && HoldsBitmap(regions, b)
    requires |marked| == 8 * BitmapSize(regions) && Marked(regions, |regions|, marked)
    ensures var lo, c := regions[b].base / FRAME, DivCeil(BitmapSize(regions), FRAME);
      && lo + c <= |marked|
      && forall i :: 0 <= i < |marked| ==>
           (Fill(marked, lo, lo + c, false)[i] <==> UsableFrame(regions, |regions|, i) && !(lo <= i < lo + c))
  {
    TakeBitmap(regions, b, marked);
  }

  /** The free frames after start-up are the pool that every later run conserves; it contains every
      usable frame outside the bitmap and nothing else. */
  lemma InitPool(s: State, regions: seq<Region>, b: nat)
    requires ValidMap(regions) && HoldsBitmap(regions, b) && Initialized(s, regions, b)
    ensures var pool := FrameRuns.FreeFrames(s);
      && FrameRuns.Conserved(FrameRuns.Ledger(s, {}, 0), pool)
      && var lo, c := regions[b].base / FRAME, DivCeil(BitmapSize(regions), FRAME);
         forall i: nat :: i in pool <==> (UsableFrame(regions, |regions|, i) && !(lo <= i < lo + c))
  {
    forall i: nat | UsableFrame(regions, |regions|, i) ensures i < |s.bits| {
      var j :| 0 <= j < |regions| && InRegion(regions[j], i);
      RegionFits(regions, j);
    }
  }

  /** The cursor starts on a set bit exactly when the frame it names is usable.  When the bitmap sits in
      the lowest usable region that is the second frame past the bitmap, which start-up does not check. */
  lemma InitCursor(s: State, regions: seq<Region>, b: nat)
    requires ValidMap(regions) && HoldsBitmap(regions, b) && Initialized(s, regions, b)
    ensures FrameRuns.CursorSet(s) <==> UsableFrame(regions, |regions|, s.next)
  {
    if UsableFrame(regions, |regions|, s.next) {
      var j :| 0 <= j < |regions| && InRegion(regions[j], s.next);
      RegionFits(regions, j);
    }
  }

  // ----- The cursor does leave the set bits -----

  /** Eight frames of memory, all usable; the bitmap takes the first. */
  function EightFrames(): seq<Region> {
    [Region(0, 8 * FRAME, true)]
  }

  ghost function EightFramesState(): State {
    State([false, true, true, true, true, true, true, true], 1, 7, 2)
  }

  lemma EightFramesMap()
    ensures var regions := EightFrames();
      && MemorySize(regions) == 8 * FRAME && BitmapSize(regions) == 1 && DivCeil(1, FRAME) == 1
      && Lowest(regions, 1, 0) && forall i :: 0 <= i < 8 ==> UsableFrame(regions, 1, i)
  {
    assert forall i :: 0 <= i < 8 ==> InRegion(EightFrames()[0], i);
  }

  lemma EightFramesInit()
    ensures ValidMap(EightFrames()) && HoldsBitmap(EightFrames(), 0)
    ensures Initialized(EightFramesState(), EightFrames(), 0)
  {
    hide SetBits, BitmapSize, DivCeil, MemorySize, UsableFrame, Lowest;
    EightFramesMap();
    EightFramesCount();
  }

  lemma EightFramesCount()
    ensures SetBits(EightFramesState().bits) == 7
  {
    hide SetBits;
    var none := seq(8, _ => false);
    NoSetBits(none);
    FillCount(none, 1, 8, true);
    assert EightFramesState().bits == Fill(none, 1, 8, true);
  }

  /** From that start three calls of `allocate_frame` grant frame 1 twice, while others are free: the
      search is bounded by the number of bytes, not of bits. */
  lemma FrameGrantedTwice()
    ensures var l := FrameRuns.Ledger(EightFramesState(), {}, 0);
      && Initialized(l.s, EightFrames(), 0) && FrameRuns.Conserved(l, FrameRuns.FreeFrames(l.s))
      && FrameRuns.Possible(l, [FrameRuns.One, FrameRuns.One, FrameRuns.One])
      && var m := FrameRuns.Run(l, [FrameRuns.One, FrameRuns.One]);
      && m.held == {1, 2} && m.s.usable > 0 && FrameRuns.Grant(m, FrameRuns.One) == {1} && m.s.bits[7]
  {
    hide Initialized, ValidMap, HoldsBitmap;
    EightFramesInit();
    var l, one := FrameRuns.Ledger(EightFramesState(), {}, 0), FrameRuns.One;
    var l1 := FrameRuns.Step(l, one);
    assert l1.s.next == 1 && l1.held == {2};
    var l2 := FrameRuns.Step(l1, one);
    assert l2.s.next == 1 && l2.held == {1, 2};
    hide FrameRuns.Possible, FrameRuns.Run;
    FrameRuns.ThreeSteps(l, one, one, one);
  }

  /** Thirty-two frames of memory with a hole at frame 3; the bitmap takes frame 0. */
  function WithHole(): seq<Region> {
    [Region(0, 3 * FRAME, true), Region(3 * FRAME, FRAME, false), Region(4 * FRAME, 28 * FRAME, true)]
  }

  ghost function WithHoleState(): State {
    State(seq(32, i => i != 0 && i != 3), 4, 30, 2)
  }

  lemma WithHoleInit()
    ensures ValidMap(WithHole()) && HoldsBitmap(WithHole(), 0) && Initialized(WithHoleState(), WithHole(), 0)
  {
    var regions, s := WithHole(), WithHoleState();
    assert BitmapSize(regions) == 4 && DivCeil(4, FRAME) == 1;
    forall i | 0 <= i < 32 ensures UsableFrame(regions, 3, i) <==> i != 3 {
      assert InRegion(regions[0], i) <==> i < 3;
      assert InRegion(regions[2], i) <==> 4 <= i;
    }
    assert regions[0].usable && regions[0].base / FRAME == 0;
    assert Lowest(regions, 3, 0);
    WithHoleCount();
    hide SetBits;
  }

  lemma WithHoleCount()
    ensures SetBits(WithHoleState().bits) == 30
  {
    hide SetBits;
    var none := seq(32, _ => false);
    NoSetBits(none);
    FillCount(none, 1, 3, true);
    FillCount(Fill(none, 1, 3, true), 4, 32, true);
    assert WithHoleState().bits == Fill(Fill(none, 1, 3, true), 4, 32, true);
  }

  /** From that start one call of `allocate_frames` leaves the cursor on the reserved frame, which the
      next `allocate_frame` grants. */
  lemma ReservedFrameGranted()
    ensures var s := WithHoleState();
      var (t, first) := AllocateMany(s, 1);
      && Initialized(s, WithHole(), 0) && first == Some(2)
      && WellFormed(t) && t.next < |t.bits| && AllocateOne(t).1 == Some(3) && !UsableFrame(WithHole(), 3, 3)
  {
    WithHoleInit();
    var s := WithHoleState();
    assert Fits(s.bits, s.len, 2, 1);
    FirstFitUnique(s.bits, s.len, 2, 1, 2);
    var regions := WithHole();
    assert !InRegion(regions[0], 3) && !InRegion(regions[1], 3) && !InRegion(regions[2], 3);
  }
}
