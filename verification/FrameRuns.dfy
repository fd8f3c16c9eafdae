/** Whole runs of the frame allocator: who holds which frame, and exactly when no frame is granted twice. */
module FrameRuns {
  import opened Collections
  import opened FrameAllocator

  /** The allocator, the frames its clients hold, and how many were ever granted. */
  datatype Ledger = Ledger(s: State, held: set<nat>, granted: nat)

  datatype Op = One | Many(cnt: nat) | Free(frame: nat)

  /** The bitmap index is in range, and clients release only what they hold. */
  ghost predicate Enabled(l: Ledger, op: Op) {
    && WellFormed(l.s)
    && match op
       case One => l.s.usable > 0 ==> l.s.next < |l.s.bits|
       case Many(cnt) => true
       case Free(frame) => frame in l.held && frame < |l.s.bits|
  }

  /** Frames an operation hands out. */
  ghost function Grant(l: Ledger, op: Op): set<nat>
    requires Enabled(l, op)
  {
    match op
    case One => if l.s.usable > 0 then {l.s.next} else {}
    case Many(cnt) =>
      (match AllocateMany(l.s, cnt).1
       case None => {}
       case Some(i) => Range(i, cnt))
    case Free(frame) => {}
  }

  ghost function Step(l: Ledger, op: Op): Ledger
    requires Enabled(l, op)
  {
    var s := match op
             case One => AllocateOne(l.s).0
             case Many(cnt) => AllocateMany(l.s, cnt).0
             case Free(frame) => Release(l.s, frame);
    var held := if op.Free? then l.held - {op.frame} else l.held + Grant(l, op);
    Ledger(s, held, l.granted + |Grant(l, op)|)
  }

  ghost predicate Possible(l: Ledger, ops: seq<Op>)
    decreases |ops|
  {
    ops == [] || (Enabled(l, ops[0]) && Possible(Step(l, ops[0]), ops[1..]))
  }

  ghost function Run(l: Ledger, ops: seq<Op>): Ledger
    requires Possible(l, ops)
    decreases |ops|
  {
    if ops == [] then l else Run(Step(l, ops[0]), ops[1..])
  }

  lemma ThreeSteps(l: Ledger, a: Op, b: Op, c: Op)
    requires Enabled(l, a) && Enabled(Step(l, a), b) && Enabled(Step(Step(l, a), b), c)
    ensures Possible(l, [a, b, c]) && Possible(l, [a, b]) && Run(l, [a, b]) == Step(Step(l, a), b)
  {
    hide Enabled, Step;
    var l1 := Step(l, a);
    var l2 := Step(l1, b);
    assert Possible(Step(l2, c), []) && Possible(l2, []);
    assert [c][1..] == [] && Possible(l2, [c]);
    assert [b][1..] == [] && [b, c][1..] == [c];
    assert Possible(l1, [b]) && Possible(l1, [b, c]);
    assert [a, b][1..] == [b] && [a, b, c][1..] == [b, c];
    assert Run(l1, [b]) == Run(l2, []);
  }

  // ----- Safety -----

  ghost function FreeFrames(s: State): set<nat> {
    set i | 0 <= i < |s.bits| && s.bits[i]
  }

  /** The set bits and the held frames split the pool: no frame is both, none is lost, and nothing
      outside the pool is ever free or held. */
  ghost predicate Conserved(l: Ledger, pool: set<nat>) {
    WellFormed(l.s) && FreeFrames(l.s) !! l.held && FreeFrames(l.s) + l.held == pool
  }

  /** Every grant of the run is of pool frames that nobody holds at that moment. */
  ghost predicate SafeRun(l: Ledger, ops: seq<Op>, pool: set<nat>)
    requires Possible(l, ops)
    decreases |ops|
  {
    ops == [] || (Grant(l, ops[0]) <= pool - l.held && SafeRun(Step(l, ops[0]), ops[1..], pool))
  }

  ghost predicate CursorSet(s: State) {
    s.next < |s.bits| && s.bits[s.next]
  }

  /** The cursor names a set bit whenever `allocate_frame` is about to grant. */
  ghost predicate CursorRun(l: Ledger, ops: seq<Op>)
    requires Possible(l, ops)
    decreases |ops|
  {
    ops == [] || ((ops[0].One? && l.s.usable > 0 ==> CursorSet(l.s)) && CursorRun(Step(l, ops[0]), ops[1..]))
  }

  /** A run that `allocate_frames` grants was free, and only it stops being free. */
  lemma ManyTakes(s: State, cnt: nat)
    requires WellFormed(s)
    ensures var (t, r) := AllocateMany(s, cnt);
      && WellFormed(t) && (r.None? ==> t == s)
      && (r.Some? ==> Range(r.value, cnt) <= FreeFrames(s) && FreeFrames(t) == FreeFrames(s) - Range(r.value, cnt))
  {
    hide FirstFit, Fill;
    if AllocateMany(s, cnt).1.Some? {
      assert Fits(s.bits, s.len, AllocateMany(s, cnt).1.value, cnt);
    }
  }

  /** The frame that `allocate_frame` grants stops being free, whether or not it was. */
  lemma OneTakes(s: State)
    requires WellFormed(s) && s.usable > 0 && s.next < |s.bits|
    ensures WellFormed(AllocateOne(s).0) && FreeFrames(AllocateOne(s).0) == FreeFrames(s) - {s.next}
    ensures s.next in FreeFrames(s) <==> CursorSet(s)
  {
    hide FirstSet;
  }

  lemma ManyConserves(l: Ledger, cnt: nat, pool: set<nat>)
    requires Conserved(l, pool)
    ensures Grant(l, Many(cnt)) <= pool - l.held && Conserved(Step(l, Many(cnt)), pool)
  {
    hide AllocateMany, FreeFrames, WellFormed;
    ManyTakes(l.s, cnt);
  }

  lemma OneConserves(l: Ledger, pool: set<nat>)
    requires Conserved(l, pool) && Enabled(l, One)
    ensures Grant(l, One) <= pool - l.held <==> (l.s.usable > 0 ==> CursorSet(l.s))
    ensures (l.s.usable > 0 ==> CursorSet(l.s)) ==> Conserved(Step(l, One), pool)
  {
    if l.s.usable == 0 {
      assert AllocateOne(l.s).0 == l.s;
    } else {
      hide AllocateOne, FreeFrames, WellFormed, CursorSet;
      OneTakes(l.s);
    }
  }

  lemma FreeConserves(l: Ledger, frame: nat, pool: set<nat>)
    requires Conserved(l, pool) && Enabled(l, Free(frame))
    ensures Grant(l, Free(frame)) <= pool - l.held && Conserved(Step(l, Free(frame)), pool)
  {
    assert FreeFrames(Step(l, Free(frame)).s) == FreeFrames(l.s) + {frame};
  }

  /** On every run, all grants are of free pool frames, so held frames never overlap each other, the
      reserved regions or the bitmap, exactly when the cursor names a set bit at each
      `allocate_frame`; and then the pool is conserved. */
  lemma {:induction false} SafeIffCursor(l: Ledger, ops: seq<Op>, pool: set<nat>)
    requires Conserved(l, pool) && Possible(l, ops)
    ensures SafeRun(l, ops, pool) <==> CursorRun(l, ops)
    ensures CursorRun(l, ops) ==> Conserved(Run(l, ops), pool)
    decreases |ops|
  {
    if ops == [] {
    } else {
      match ops[0] {
        case Many(cnt) => ManyConserves(l, cnt, pool);
        case One => OneConserves(l, pool);
        case Free(frame) => FreeConserves(l, frame, pool);
      }
      if Grant(l, ops[0]) <= pool - l.held {
        hide Conserved, Step;
        SafeIffCursor(Step(l, ops[0]), ops[1..], pool);
      }
    }
  }

  /** The counter is the initial one minus everything ever granted; releases do not credit it. */
  lemma {:induction false} UsableAccounting(l: Ledger, ops: seq<Op>)
    requires Possible(l, ops)
    ensures Run(l, ops).s.usable + Run(l, ops).granted == l.s.usable + l.granted
    decreases |ops|
  {
    if ops == [] {
    } else {
      assert Step(l, ops[0]).s.usable + Step(l, ops[0]).granted == l.s.usable + l.granted;
      hide Step;
      UsableAccounting(Step(l, ops[0]), ops[1..]);
    }
  }

  /** The cursor stays inside the bitmap, so `allocate_frame` can only index outside it if the cursor was
      outside from the start. */
  lemma {:induction false} CursorInRange(l: Ledger, ops: seq<Op>)
    requires WellFormed(l.s) && l.s.len >= 1 && l.s.next < |l.s.bits| && Possible(l, ops)
    ensures Run(l, ops).s.next < |Run(l, ops).s.bits| && Enabled(Run(l, ops), One)
    decreases |ops|
  {
    if ops == [] {
    } else {
      StepInRange(l, ops[0]);
      hide Step, Enabled;
      CursorInRange(Step(l, ops[0]), ops[1..]);
    }
  }

  lemma StepInRange(l: Ledger, op: Op)
    requires WellFormed(l.s) && l.s.len >= 1 && l.s.next < |l.s.bits| && Enabled(l, op)
    ensures var t := Step(l, op).s; WellFormed(t) && t.len >= 1 && t.next < |t.bits|
  {
  }

  // ----- Frames below the cursor -----

  /** The cursor has not passed the byte count. */
  ghost predicate InSearch(s: State) {
    WellFormed(s) && s.next <= s.len
  }

  /** No operation moves the cursor back or grants a frame below it. */
  lemma StepForward(l: Ledger, op: Op)
    requires InSearch(l.s) && Enabled(l, op)
    ensures InSearch(Step(l, op).s) && l.s.next <= Step(l, op).s.next
    ensures forall f :: f in Grant(l, op) ==> l.s.next <= f
  {
    hide FirstFit, Fill, FirstSet;
  }

  /** No grant of the run is of a frame below `low`. */
  ghost predicate GrantsFrom(l: Ledger, ops: seq<Op>, low: nat)
    requires Possible(l, ops)
    decreases |ops|
  {
    ops == [] || ((forall f :: f in Grant(l, ops[0]) ==> low <= f) && GrantsFrom(Step(l, ops[0]), ops[1..], low))
  }

  /** A frame below the cursor is never granted again, even after it is given back: releasing a frame does
      not move the cursor, and no search starts before it. */
  lemma {:induction false} ReleasedBelowLost(l: Ledger, ops: seq<Op>, low: nat)
    requires InSearch(l.s) && low <= l.s.next && Possible(l, ops)
    ensures GrantsFrom(l, ops, low)
    decreases |ops|
  {
    if ops == [] {
    } else {
      StepForward(l, ops[0]);
      hide Step, Grant, InSearch;
      ReleasedBelowLost(Step(l, ops[0]), ops[1..], low);
    }
  }

  // ----- What keeps the cursor on a set bit -----

  /** `allocate_frame` leaves the cursor on a set bit unless its search below `len` is exhausted and
      the bit at `len` is clear. */
  lemma CursorAfterOne(s: State)
    requires WellFormed(s) && s.usable > 0 && CursorSet(s)
    ensures CursorSet(AllocateOne(s).0) <==>
      (exists k :: s.next < k < s.len && s.bits[k]) || (s.next != s.len < |s.bits| && s.bits[s.len])
  {
    var t := AllocateOne(s).0;
    if k :| s.next < k < s.len && s.bits[k] {
      assert t.bits[k] && t.next <= k;
    }
  }

  /** `allocate_frames` moves the cursor only on its fast path, and then to the bit after the run,
      which it does not test. */
  lemma CursorAfterMany(s: State, cnt: nat)
    requires WellFormed(s) && CursorSet(s)
    ensures var (t, r) := AllocateMany(s, cnt);
      CursorSet(t) <==> r != Some(s.next) || (s.next + cnt < |s.bits| && s.bits[s.next + cnt])
  {
  }

  lemma CursorAfterRelease(s: State, frame: nat)
    requires CursorSet(s) && frame < |s.bits|
    ensures CursorSet(Release(s, frame))
  {
  }
}
