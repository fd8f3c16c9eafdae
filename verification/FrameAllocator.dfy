/** The physical frame allocator: allocation of one frame or a run of frames, release, and start-up. */
module FrameAllocator {
  import opened Collections
  import opened Bitmaps

  const FRAME: nat := 4096

  /** The allocator's fields.  `len` is the bitmap's length in bytes; the code bounds its searches by
      it although frames are numbered by bits. */
  datatype State = State(bits: seq<bool>, len: nat, usable: nat, next: nat)

  ghost predicate WellFormed(s: State) {
    |s.bits| == 8 * s.len
  }

  // ----- Runs of set bits -----

  ghost predicate AllSet(bits: seq<bool>, start: nat, cnt: nat) {
    forall k :: start <= k < start + cnt ==> k < |bits| && bits[k]
  }

  /** A run of `cnt` set bits starts at `i` and ends below `len`. */
  ghost predicate Fits(bits: seq<bool>, len: nat, i: nat, cnt: nat) {
    i + cnt <= len && AllSet(bits, i, cnt)
  }

  /** First fit, by trying every start in turn. */
  ghost function FirstFit(bits: seq<bool>, len: nat, from: nat, cnt: nat): (r: Option<nat>)
    ensures r.Some? ==> from <= r.value && Fits(bits, len, r.value, cnt)
    ensures r.Some? ==> forall i :: from <= i < r.value ==> !Fits(bits, len, i, cnt)
    ensures r.None? ==> forall i :: from <= i ==> !Fits(bits, len, i, cnt)
    decreases if from <= len then len - from + 1 else 0
  {
    if from > len then None
    else if Fits(bits, len, from, cnt) then Some(from)
    else FirstFit(bits, len, from + 1, cnt)
  }

  ghost predicate NoFit(bits: seq<bool>, len: nat, from: nat, to: nat, cnt: nat) {
    forall i :: from <= i < to ==> !Fits(bits, len, i, cnt)
  }

  lemma FirstFitUnique(bits: seq<bool>, len: nat, from: nat, cnt: nat, i: nat)
    requires from <= i && Fits(bits, len, i, cnt) && NoFit(bits, len, from, i, cnt)
    ensures FirstFit(bits, len, from, cnt) == Some(i)
  {
    var r := FirstFit(bits, len, from, cnt);
    assert r.Some? ==> !(i < r.value) && !(r.value < i);
  }

  lemma FoundRun(bits: seq<bool>, len: nat, from: nat, i: nat, cnt: nat)
    requires from <= i && cnt >= 1 && i + cnt <= len && AllSet(bits, i, cnt) && NoFit(bits, len, from, i, cnt)
    ensures FirstFit(bits, len, from, cnt) == Some(i)
  {
    FirstFitUnique(bits, len, from, cnt, i);
  }

  /** First set bit in `from..to`, or `to`. */
  ghost function FirstSet(bits: seq<bool>, from: nat, to: nat): (r: nat)
    requires to <= |bits|
    ensures from <= to ==> from <= r <= to
    ensures from > to ==> r == to
    ensures r < to ==> bits[r]
    ensures forall k :: from <= k < r && k < to ==> !bits[k]
    decreases if from < to then to - from else 0
  {
    if from >= to then to else if bits[from] then from else FirstSet(bits, from + 1, to)
  }

  /** The bits with `lo..hi` set to `value`. */
  ghost function Fill(bits: seq<bool>, lo: nat, hi: nat, value: bool): (r: seq<bool>)
    requires lo <= hi <= |bits|
    ensures |r| == |bits|
    ensures forall k :: 0 <= k < |bits| ==> r[k] == if lo <= k < hi then value else bits[k]
  {
    seq(|bits|, k requires 0 <= k < |bits| => if lo <= k < hi then value else bits[k])
  }

  // ----- The operations on states -----

  /** `allocate_frames`: the result is a frame number. */
  ghost function AllocateMany(s: State, cnt: nat): (State, Option<nat>)
    requires WellFormed(s)
  {
    if cnt == 0 || cnt > s.usable then (s, None)
    else
      match FirstFit(s.bits, s.len, s.next, cnt)
      case None => (s, None)
      case Some(i) =>
        (s.(bits := Fill(s.bits, i, i + cnt, false), usable := s.usable - cnt,
            next := if i == s.next then i + cnt else s.next), Some(i))
  }

  /** A run of `cnt` set bits from `i` on, ending at or below the byte count. */
  ghost predicate FreeRun(s: State, i: nat, cnt: nat) {
    i + cnt <= s.len <= |s.bits| && forall k :: i <= k < i + cnt ==> s.bits[k]
  }

  /** `allocate_frames` fails exactly when nothing is asked for, the counter is too low, or no such run starts
      at or after the cursor; otherwise it takes the lowest one, and the cursor moves behind the run only if
      the run starts at it. */
  lemma ManyExact(s: State, cnt: nat)
    requires WellFormed(s)
    ensures var (t, r) := AllocateMany(s, cnt);
      && (r.None? <==> cnt == 0 || cnt > s.usable || forall i :: s.next <= i ==> !FreeRun(s, i, cnt))
      && (r.None? ==> t == s)
      && (r.Some? ==>
            && s.next <= r.value && FreeRun(s, r.value, cnt)
            && (forall i :: s.next <= i < r.value ==> !FreeRun(s, i, cnt))
            && t.len == s.len && t.usable == s.usable - cnt && |t.bits| == |s.bits|
            && (forall k :: 0 <= k < |s.bits| ==> (t.bits[k] <==> s.bits[k] && !(r.value <= k < r.value + cnt)))
            && t.next == if r.value == s.next then r.value + cnt else s.next)
  {
    assert forall i: nat :: Fits(s.bits, s.len, i, cnt) <==> FreeRun(s, i, cnt);
    hide FirstFit, Fill, Fits;
  }

  lemma ManyRefused(s: State, cnt: nat)
    requires WellFormed(s) && (cnt == 0 || cnt > s.usable || FirstFit(s.bits, s.len, s.next, cnt) == None)
    ensures AllocateMany(s, cnt) == (s, None)
  {
  }

  lemma ManyGranted(s: State, cnt: nat, i: nat)
    requires WellFormed(s) && 1 <= cnt <= s.usable && FirstFit(s.bits, s.len, s.next, cnt) == Some(i)
    ensures i + cnt <= |s.bits|
    ensures AllocateMany(s, cnt) ==
      (State(Fill(s.bits, i, i + cnt, false), s.len, s.usable - cnt, if i == s.next then i + cnt else s.next), Some(i))
  {
  }

  /** `allocate_frame`; it indexes the bitmap at `next` without testing the bit there. */
  ghost function AllocateOne(s: State): (State, Option<nat>)
    requires WellFormed(s) && (s.usable > 0 ==> s.next < |s.bits|)
  {
    if s.usable == 0 then (s, None)
    else
      var bits := s.bits[s.next := false];
      (s.(bits := bits, usable := s.usable - 1, next := FirstSet(bits, s.next + 1, s.len)), Some(s.next))
  }

  /** `allocate_frame` grants the frame at the cursor, clears its bit alone, and moves on to the next set bit
      below the byte count, or to the byte count if there is none. */
  lemma OneExact(s: State)
    requires WellFormed(s) && s.usable > 0 && s.next < |s.bits|
    ensures var (t, r) := AllocateOne(s);
      && r == Some(s.next) && t.len == s.len && t.usable == s.usable - 1 && |t.bits| == |s.bits|
      && (forall k :: 0 <= k < |s.bits| ==> (t.bits[k] <==> s.bits[k] && k != s.next))
      && (|| (s.next < t.next < s.len && s.bits[t.next] && forall k :: s.next < k < t.next ==> !s.bits[k])
          || (t.next == s.len && forall k :: s.next < k < s.len ==> !s.bits[k]))
  {
  }

  /** `deallocate_frame`: neither the counter nor the cursor changes. */
  ghost function Release(s: State, frame: nat): State
    requires frame < |s.bits|
  {
    s.(bits := s.bits[frame := true])
  }

  // ----- The allocator -----

  class BitmapFrameAllocator {
    const bitmap: Bitmap
    var usableFrames: nat
    var nextFrame: nat

    ghost predicate Valid()
      reads this, bitmap, bitmap.inner
    {
      bitmap.Valid() && |bitmap.bits| == 8 * bitmap.Len()
    }

    ghost function View(): State
      reads this, bitmap
    {
      State(bitmap.bits, bitmap.Len(), usableFrames, nextFrame)
    }

    constructor (bitmap: Bitmap, usableFrames: nat, nextFrame: nat)
      requires bitmap.Valid()
      ensures Valid() && this.bitmap == bitmap && View() == State(bitmap.bits, bitmap.Len(), usableFrames, nextFrame)
    {
      this.bitmap, this.usableFrames, this.nextFrame := bitmap, usableFrames, nextFrame;
    }

    /** Sets the bits `lo..hi`, one at a time. */
    method FillRange(lo: nat, hi: nat, value: bool)
      requires Valid() && lo <= hi <= 8 * bitmap.Len()
      modifies bitmap, bitmap.inner
      ensures Valid() && bitmap.bits == Fill(old(bitmap.bits), lo, hi, value)
    {
      var i := lo;
      while i < hi
        invariant lo <= i <= hi && Valid() && |bitmap.bits| == |old(bitmap.bits)|
        invariant bitmap.bits == Fill(old(bitmap.bits), lo, i, value)
      {
        bitmap.Set(i, value);
        i := i + 1;
      }
    }

    /** Scans a run of set bits from `start`, stopping after `cnt` of them. */
    method ScanRun(start: nat, cnt: nat) returns (next: nat, found: bool)
      requires Valid()
      ensures start <= next && AllSet(bitmap.bits, start, next - start)
      ensures found <==> cnt >= 1 && next == start + cnt
      ensures start < next ==> next <= bitmap.Len()
      ensures start < bitmap.Len() && bitmap.bits[start] ==> start < next
      ensures cnt >= 1 ==> next - start <= cnt
      ensures !found ==> next >= bitmap.Len() || !bitmap.bits[next]
    {
      hide Bitmap.Valid;
      next, found := start, false;
      var frameCnt := 0;
      while next < bitmap.Len()
        invariant start <= next && frameCnt == next - start && AllSet(bitmap.bits, start, frameCnt)
        invariant !found && (cnt >= 1 ==> frameCnt < cnt)
        invariant start < next ==> next <= bitmap.Len()
        decreases bitmap.Len() - next
      {
        var bit := bitmap.Get(next);
        if !bit {
          break;
        }
        next, frameCnt := next + 1, frameCnt + 1;
        if frameCnt == cnt {
          found := true;
          break;
        }
      }
    }

    /** Skips clear bits from `next`. */
    method SkipClear(next: nat) returns (start: nat)
      requires Valid() && next <= bitmap.Len()
      ensures next <= start <= bitmap.Len() && (start < bitmap.Len() ==> bitmap.bits[start])
      ensures forall k :: next <= k < start ==> !bitmap.bits[k]
    {
      start := next;
      while start < bitmap.Len()
        invariant next <= start <= bitmap.Len()
        invariant forall k :: next <= k < start ==> !bitmap.bits[k]
      {
        var bit := bitmap.Get(start);
        if bit {
          break;
        }
        start := start + 1;
      }
    }

    /** The search after the fast scan has failed: alternately skips clear bits and scans runs. */
    method Search(after: nat, cnt: nat) returns (end: Option<nat>)
      requires Valid() && nextFrame <= after
      requires cnt >= 1 ==> NoFit(bitmap.bits, bitmap.Len(), nextFrame, after, cnt)
      ensures cnt == 0 ==> end.None?
      ensures cnt >= 1 && end.None? ==> FirstFit(bitmap.bits, bitmap.Len(), nextFrame, cnt) == None
      ensures cnt >= 1 && end.Some? ==>
        && after + cnt <= end.value <= bitmap.Len()
        && FirstFit(bitmap.bits, bitmap.Len(), nextFrame, cnt) == Some(end.value - cnt)
    {
      hide Fits, FirstFit, NoFit, AllSet, Bitmap.Valid, Fill;
      ghost var bits, len, from := bitmap.bits, bitmap.Len(), nextFrame;
      var next := after;
      while true
        invariant after <= next && (cnt >= 1 ==> NoFit(bits, len, from, next, cnt))
        decreases len - next
      {
        if next >= bitmap.Len() {
          if cnt >= 1 {
            NoFitAtAll(bits, len, from, next, cnt);
          }
          return None;
        }
        var start := SkipClear(next);
        if cnt >= 1 {
          ClearRun(bits, len, next, start, cnt);
          NoFitJoin(bits, len, from, next, start, cnt);
        }
        var found;
        next, found := ScanRun(start, cnt);
        if found {
          FoundRun(bits, len, from, start, cnt);
          return Some(next);
        }
        if cnt >= 1 {
          ShortRun(bits, len, start, next, cnt);
          NoFitJoin(bits, len, from, start, next, cnt);
        }
      }
    }

    /** The fast scan from the cursor, then the search.  Together they compute the naive first fit;
        `fast` tells whether the run starts at the cursor. */
    method FindRun(cnt: nat) returns (end: Option<nat>, fast: bool)
      requires Valid()
      ensures cnt == 0 ==> end.None?
      ensures cnt >= 1 && end.None? ==> FirstFit(bitmap.bits, bitmap.Len(), nextFrame, cnt) == None
      ensures cnt >= 1 && end.Some? ==>
        && nextFrame + cnt <= end.value <= bitmap.Len()
        && FirstFit(bitmap.bits, bitmap.Len(), nextFrame, cnt) == Some(end.value - cnt)
      ensures end.Some? ==> (fast <==> end.value - cnt == nextFrame)
    {
      hide Fits, FirstFit, NoFit, AllSet, Bitmap.Valid;
      ghost var bits, len, from := bitmap.bits, bitmap.Len(), nextFrame;
      var next, found := ScanRun(nextFrame, cnt);
      NoFitNothing(bits, len, from, cnt);
      if found {
        FoundRun(bits, len, from, from, cnt);
        return Some(next), true;
      }
      if cnt >= 1 {
        ShortRun(bits, len, from, next, cnt);
      }
      end := Search(next, cnt);
      fast := false;
      if end.Some? {
        StartIsNot(bits, len, from, next, cnt);
      }
    }

    /** `allocate_frames`. */
    method AllocateFrames(cnt: nat) returns (addr: Option<nat>)
      requires Valid()
      modifies this, bitmap, bitmap.inner
      ensures Valid()
      ensures var (t, r) := AllocateMany(old(View()), cnt);
        View() == t && addr == if r.Some? then Some(r.value * FRAME) else None
    {
      ghost var s := View();
      hide FirstFit, Fill, Bitmap.Valid, AllocateMany;
      if cnt > usableFrames {
        ManyRefused(s, cnt);
        return None;
      }
      usableFrames := usableFrames - cnt;
      var end, fast := FindRun(cnt);
      if end.None? {
        ManyRefused(s, cnt);
        usableFrames := usableFrames + cnt;
        return None;
      }
      var start := end.value - cnt;
      ManyGranted(s, cnt, start);
      if fast {
        nextFrame := end.value;
      }
      FillRange(start, end.value, false);
      return Some(start * FRAME);
    }

    /** `allocate_frame`. */
    method AllocateFrame() returns (addr: Option<nat>)
      requires Valid() && (usableFrames > 0 ==> nextFrame < 8 * bitmap.Len())
      modifies this, bitmap, bitmap.inner
      ensures Valid()
      ensures var (t, r) := AllocateOne(old(View()));
        View() == t && addr == if r.Some? then Some(r.value * FRAME) else None
    {
      if usableFrames == 0 {
        return None;
      }
      hide Bitmap.Valid;
      usableFrames := usableFrames - 1;
      bitmap.Set(nextFrame, false);
      var address := nextFrame * FRAME;
      ghost var from := nextFrame + 1;
      var i := nextFrame + 1;
      while i < bitmap.Len()
        invariant from <= i && Valid() && bitmap.bits == old(bitmap.bits)[old(nextFrame) := false]
        invariant usableFrames == old(usableFrames) - 1
        invariant FirstSet(bitmap.bits, from, bitmap.Len()) == FirstSet(bitmap.bits, i, bitmap.Len())
        decreases bitmap.Len() - i
      {
        var bit := bitmap.Get(i);
        if bit {
          nextFrame := i;
          return Some(address);
        }
        i := i + 1;
      }
      nextFrame := bitmap.Len();
      return Some(address);
    }

    /** `deallocate_frame`. */
    method DeallocateFrame(addr: nat)
      requires Valid() && addr / FRAME < 8 * bitmap.Len()
      modifies bitmap, bitmap.inner
      ensures Valid() && View() == Release(old(View()), addr / FRAME)
    {
      bitmap.Set(addr / FRAME, true);
    }
  }

  /** No fit starts at a clear bit. */
  lemma ClearRun(bits: seq<bool>, len: nat, next: nat, start: nat, cnt: nat)
    requires next <= start <= |bits| && cnt >= 1
    requires forall k :: next <= k < start ==> !bits[k]
    ensures NoFit(bits, len, next, start, cnt)
  {
    forall i | next <= i < start ensures !Fits(bits, len, i, cnt) {
      assert i <= i < i + cnt && !bits[i];
    }
  }

  /** After a run too short for `cnt`, no fit starts in it. */
  lemma ShortRun(bits: seq<bool>, len: nat, start: nat, next: nat, cnt: nat)
    requires start <= next && cnt >= 1 && next - start < cnt
    requires start < next ==> next <= len
    requires next < len ==> next < |bits| && !bits[next]
    ensures NoFit(bits, len, start, next, cnt)
  {
    forall i | start <= i < next ensures !Fits(bits, len, i, cnt) {
      if next < len {
        assert i <= next < i + cnt && !bits[next];
      }
    }
  }

  /** If the run at the cursor was too short, the first fit starts later. */
  lemma StartIsNot(bits: seq<bool>, len: nat, from: nat, next: nat, cnt: nat)
    requires from <= next && cnt >= 1 && next - from < cnt
    requires next < len ==> next < |bits| && !bits[next]
    requires next >= len ==> next == from || next == len
    ensures FirstFit(bits, len, from, cnt) != Some(from)
  {
    if next < len {
      assert from <= next < from + cnt && !bits[next];
    }
    assert !Fits(bits, len, from, cnt);
  }

  lemma NoFitNothing(bits: seq<bool>, len: nat, from: nat, cnt: nat)
    ensures NoFit(bits, len, from, from, cnt)
  {
  }

  lemma NoFitJoin(bits: seq<bool>, len: nat, a: nat, b: nat, c: nat, cnt: nat)
    requires NoFit(bits, len, a, b, cnt) && NoFit(bits, len, b, c, cnt)
    ensures NoFit(bits, len, a, c, cnt)
  {
  }

  lemma NoFitAtAll(bits: seq<bool>, len: nat, from: nat, next: nat, cnt: nat)
    requires NoFit(bits, len, from, next, cnt) && next >= len && cnt >= 1
    ensures FirstFit(bits, len, from, cnt) == None
  {
  }
}
