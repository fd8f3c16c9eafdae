/** The completion queue as a protocol between the host and the controller.

    The first three fields are the host's `NvmeCompQueue`, the next three are the
    head doorbell and the controller's own tail and phase, and the last three
    record history: every entry posted, the absolute position of the host's head
    and the absolute position last written to the doorbell.  Steps read and write
    only the first six fields; history is extended alongside. */
module CompletionRing {
  import opened Collections
  import opened NvmeTypes
  import opened RingArith

  datatype Ring = Ring(
    slots: seq<Completion>, head: nat, phase: bool,
    doorbell: nat, tail: nat, tailPhase: bool,
    posted: seq<Completion>, pos: nat, rung: nat)

  // ----- Steps of the controller -----

  /** The controller may post unless that would make the queue full. */
  predicate CanPost(r: Ring)
    requires |r.slots| > 0
  {
    (r.tail + 1) % |r.slots| != r.doorbell
  }

  function Post(r: Ring, c: Completion): Ring
    requires r.tail < |r.slots|
  {
    if !CanPost(r) then r
    else
      var e := Tagged(c, r.tailPhase);
      var t := (r.tail + 1) % |r.slots|;
      r.(slots := r.slots[r.tail := e], tail := t,
         tailPhase := if t == 0 then !r.tailPhase else r.tailPhase,
         posted := r.posted + [e])
  }

  // ----- Steps of the host -----

  /** `complete`: consumes the entry at the head if its phase tag is the expected one. */
  function Complete(r: Ring): (Ring, Option<Completion>)
    requires r.head < |r.slots|
  {
    var entry := r.slots[r.head];
    if PhaseTag(entry) == r.phase then
      var h := (r.head + 1) % |r.slots|;
      (r.(head := h, phase := if h == 0 then !r.phase else r.phase, pos := r.pos + 1), Some(entry))
    else
      (r, None)
  }

  lemma CompleteKeeps(r: Ring)
    requires r.head < |r.slots|
    ensures Complete(r).0.slots == r.slots && (Complete(r).1.None? ==> Complete(r).0 == r)
  {
  }

  /** The first part of `complete_n`: the head jumps to the last of `n` expected entries. */
  function Jump(r: Ring, n: nat): Ring
    requires |r.slots| > 0 && n >= 1
  {
    var h := r.head + (n - 1);
    r.(head := h % |r.slots|, phase := if h >= |r.slots| then !r.phase else r.phase, pos := r.pos + (n - 1))
  }

  function RingDoorbell(r: Ring): Ring {
    r.(doorbell := r.head, rung := r.pos)
  }

  // ----- Invariant -----

  /** The slot of position `k` still holds what was written at `k`. */
  ghost predicate Holds(r: Ring, k: int)
    requires |r.slots| > 0 && k < |r.posted|
  {
    && PhaseTag(r.slots[k % |r.slots|]) == EvenLap(k, |r.slots|)
    && (k >= 0 ==> r.slots[k % |r.slots|] == r.posted[k])
  }

  /** `pos` may run up to one lap ahead of the controller while `complete_n` waits. */
  ghost predicate Inv(r: Ring) {
    var n := |r.slots|;
    && 2 <= n
    && r.head == r.pos % n && r.phase == EvenLap(r.pos, n)
    && r.tail == |r.posted| % n && r.tailPhase == EvenLap(|r.posted|, n)
    && r.doorbell == r.rung % n
    && r.rung <= |r.posted| < r.rung + n
    && r.rung <= r.pos < |r.posted| + n
    && forall k :: |r.posted| - n <= k < |r.posted| ==> Holds(r, k)
  }

  /** The queue as created: head 0, phase 1, nothing posted. */
  function Fresh(slots: seq<Completion>): Ring {
    Ring(slots, 0, true, 0, 0, true, [], 0, 0)
  }

  ghost predicate PhasesClear(slots: seq<Completion>) {
    forall i :: 0 <= i < |slots| ==> !PhaseTag(slots[i])
  }

  lemma FreshInv(slots: seq<Completion>)
    requires 2 <= |slots| && PhasesClear(slots)
    ensures Inv(Fresh(slots))
  {
    var r := Fresh(slots);
    forall k | -|slots| <= k < 0
      ensures Holds(r, k)
    {
      Unique(k, |slots|, -1, k + |slots|);
    }
    Unique(0, |slots|, 0, 0);
  }

  lemma CanPostIff(r: Ring)
    requires Inv(r)
    ensures CanPost(r) <==> |r.posted| + 1 < r.rung + |r.slots|
  {
    var n := |r.slots|;
    Next(|r.posted|, n);
    LapBack(r.rung + n, n);
    Distinct(|r.posted| + 1, r.rung + n, n);
  }

  lemma PostInv(r: Ring, c: Completion)
    requires Inv(r)
    ensures Inv(Post(r, c))
  {
    var n, p, s := |r.slots|, |r.posted|, Post(r, c);
    CanPostIff(r);
    if CanPost(r) {
      Next(p, n);
      forall k | p + 1 - n <= k < p + 1
        ensures Holds(s, k)
      {
        if k < p {
          assert Holds(r, k);
          Distinct(k, p, n);
        }
      }
    }
  }

  /** The phase test at the head succeeds exactly when the entry at that position
      has been posted, and then it reads that entry. */
  lemma PhaseTestExact(r: Ring)
    requires Inv(r)
    ensures PhaseTag(r.slots[r.head]) == r.phase <==> r.pos < |r.posted|
    ensures r.pos < |r.posted| ==> r.slots[r.head] == r.posted[r.pos]
  {
    var n := |r.slots|;
    if r.pos < |r.posted| {
      assert Holds(r, r.pos);
    } else {
      LapBack(r.pos, n);
      assert Holds(r, r.pos - n);
    }
  }

  lemma CompleteInv(r: Ring)
    requires Inv(r)
    ensures Inv(Complete(r).0)
    ensures Complete(r).1 == if r.pos < |r.posted| then Some(r.posted[r.pos]) else None
    ensures Complete(r).0.pos == if r.pos < |r.posted| then r.pos + 1 else r.pos
    ensures Complete(r).0.posted == r.posted && Complete(r).0.rung == r.rung
  {
    PhaseTestExact(r);
    Next(r.pos, |r.slots|);
    var s := Complete(r).0;
    forall k | |r.posted| - |r.slots| <= k < |r.posted|
      ensures Holds(s, k)
    {
      assert Holds(r, k);
    }
  }

  lemma JumpInv(r: Ring, n: nat)
    requires Inv(r) && r.pos <= |r.posted| && 1 <= n <= |r.slots|
    ensures Inv(Jump(r, n))
  {
    RingArith.Jump(r.pos, |r.slots|, n - 1);
    var s := Jump(r, n);
    forall k | |r.posted| - |r.slots| <= k < |r.posted|
      ensures Holds(s, k)
    {
      assert Holds(r, k);
    }
  }

  lemma DoorbellInv(r: Ring)
    requires Inv(r) && r.pos <= |r.posted|
    ensures Inv(RingDoorbell(r))
  {
    var s := RingDoorbell(r);
    forall k | |r.posted| - |r.slots| <= k < |r.posted|
      ensures Holds(s, k)
    {
      assert Holds(r, k);
    }
  }

  // ----- Every interleaving of posts and polls -----

  datatype Event = PostEvent(c: Completion) | PollEvent | DoorbellEvent

  function Step(r: Ring, e: Event): (Ring, Option<Completion>)
    requires r.head < |r.slots| && r.tail < |r.slots|
  {
    match e
    case PostEvent(c) => (Post(r, c), None)
    case DoorbellEvent => (RingDoorbell(r), None)
    case PollEvent => Complete(r)
  }

  /** The state after a run, and the entries the polls returned. */
  function Run(r: Ring, events: seq<Event>): (Ring, seq<Completion>)
    requires r.head < |r.slots| && r.tail < |r.slots|
    decreases |events|
  {
    if events == [] then (r, [])
    else
      var (s, e) := Step(r, events[0]);
      var (t, es) := Run(s, events[1..]);
      (t, (if e.Some? then [e.value] else []) + es)
  }

  lemma StepInv(r: Ring, e: Event)
    requires Inv(r) && r.pos <= |r.posted|
    ensures var (s, got) := Step(r, e);
      && Inv(s) && s.pos <= |s.posted| && r.posted <= s.posted
      && r.pos <= s.pos && s.posted[r.pos..s.pos] == if got.Some? then [got.value] else []
  {
    match e
    case PostEvent(c) => PostInv(r, c);
    case DoorbellEvent => DoorbellInv(r);
    case PollEvent => CompleteInv(r);
  }

  lemma {:induction false} RunFrom(r: Ring, events: seq<Event>)
    requires Inv(r) && r.pos <= |r.posted|
    ensures var (s, consumed) := Run(r, events);
      && Inv(s) && s.pos <= |s.posted| && r.posted <= s.posted && r.pos <= s.pos
      && consumed == s.posted[r.pos..s.pos]
    decreases |events|
  {
    if events == [] {
    } else {
      StepInv(r, events[0]);
      var (m, got) := Step(r, events[0]);
      RunFrom(m, events[1..]);
      var s := Run(m, events[1..]).0;
      assert s.posted[r.pos..s.pos] == s.posted[r.pos..m.pos] + s.posted[m.pos..s.pos];
      assert s.posted[r.pos..m.pos] == m.posted[r.pos..m.pos];
    }
  }

  /** From clear phase tags, in every interleaving and across any number of laps,
      the polls return each posted entry once, in posting order, and nothing else;
      and the next poll succeeds exactly when an unconsumed entry exists. */
  lemma ConsumedInPostingOrder(slots: seq<Completion>, events: seq<Event>)
    requires 2 <= |slots| && PhasesClear(slots)
    ensures var (s, consumed) := Run(Fresh(slots), events);
      && s.pos <= |s.posted| && consumed == s.posted[..s.pos]
      && s.head < |s.slots| && (Complete(s).1.Some? <==> |consumed| < |s.posted|)
  {
    FreshInv(slots);
    RunFrom(Fresh(slots), events);
    CompleteInv(Run(Fresh(slots), events).0);
  }

  // ----- The premise on the initial memory is necessary -----

  /** `m` rounds of one post and one poll. */
  function Rounds(m: nat): seq<Event> {
    if m == 0 then [] else Rounds(m - 1) + [PostEvent(Completion(0, 0, 0)), PollEvent]
  }

  lemma {:induction false} RunAppend(r: Ring, a: seq<Event>, b: seq<Event>)
    requires r.head < |r.slots| && r.tail < |r.slots|
    ensures var (s, es) := Run(r, a);
      && s.head < |s.slots| && s.tail < |s.slots|
      && Run(r, a + b) == (Run(s, b).0, es + Run(s, b).1)
    decreases |a|
  {
    if a == [] {
      assert a + b == b && [] + Run(r, b).1 == Run(r, b).1;
    } else {
      assert (a + b)[0] == a[0] && (a + b)[1..] == a[1..] + b;
      var (m, got) := Step(r, a[0]);
      RunAppend(m, a[1..], b);
      var first := if got.Some? then [got.value] else [];
      var (s, es) := Run(m, a[1..]);
      assert (first + es) + Run(s, b).1 == first + (es + Run(s, b).1);
    }
  }

  /** Host and controller in step at slot `m` of the first lap, with `m` entries exchanged. */
  ghost predicate InStep(r: Ring, slots: seq<Completion>, m: nat) {
    && m < |slots| == |r.slots| && r.slots[m..] == slots[m..]
    && r.head == r.tail == m && r.phase && r.tailPhase && r.doorbell == 0
    && |r.posted| == r.pos == m
  }

  lemma OneRound(r: Ring, slots: seq<Completion>, m: nat, c: Completion)
    requires InStep(r, slots, m) && m + 1 < |slots|
    ensures Complete(Post(r, c)).1.Some? && InStep(Complete(Post(r, c)).0, slots, m + 1)
  {
    Unique(m + 1, |slots|, 0, m + 1);
    var t := Post(r, c);
    assert t.slots[m + 1..] == r.slots[m..][1..] == slots[m + 1..];
  }

  lemma RunTwo(r: Ring, c: Completion)
    requires r.head < |r.slots| && r.tail < |r.slots|
    ensures Run(r, [PostEvent(c), PollEvent]).0 == Complete(Post(r, c)).0
    ensures |Run(r, [PostEvent(c), PollEvent]).1| == if Complete(Post(r, c)).1.Some? then 1 else 0
  {
    assert [PostEvent(c), PollEvent][1..] == [PollEvent];
    assert [PollEvent][1..] == [];
    assert Run(Post(r, c), [PollEvent]).0 == Complete(Post(r, c)).0;
  }

  lemma {:induction false} RoundsReach(slots: seq<Completion>, m: nat)
    requires 2 <= |slots| && m < |slots|
    ensures InStep(Run(Fresh(slots), Rounds(m)).0, slots, m)
    ensures |Run(Fresh(slots), Rounds(m)).1| == m
  {
    if m == 0 {
    } else {
      RoundsReach(slots, m - 1);
      var c := Completion(0, 0, 0);
      RunAppend(Fresh(slots), Rounds(m - 1), [PostEvent(c), PollEvent]);
      var s := Run(Fresh(slots), Rounds(m - 1)).0;
      OneRound(s, slots, m - 1, c);
      RunTwo(s, c);
    }
  }

  /** Polls return only posted entries in every run exactly when the memory behind
      the queue starts with clear phase tags; the driver does not clear it. */
  lemma ClearPhasesNecessary(slots: seq<Completion>)
    requires 2 <= |slots|
    ensures PhasesClear(slots) <==>
      forall events :: |Run(Fresh(slots), events).1| <= |Run(Fresh(slots), events).0.posted|
  {
    if PhasesClear(slots) {
      forall events ensures |Run(Fresh(slots), events).1| <= |Run(Fresh(slots), events).0.posted| {
        ConsumedInPostingOrder(slots, events);
      }
    } else {
      var m :| 0 <= m < |slots| && PhaseTag(slots[m]);
      RoundsReach(slots, m);
      RunAppend(Fresh(slots), Rounds(m), [PollEvent]);
      var s := Run(Fresh(slots), Rounds(m)).0;
      assert s.slots[m..][0] == slots[m..][0];
      assert [PollEvent][1..] == [];
      assert |Run(s, [PollEvent]).1| == 1;
      var bad := Rounds(m) + [PollEvent];
      assert |Run(Fresh(slots), bad).1| > |Run(Fresh(slots), bad).0.posted|;
    }
  }

  // ----- complete_n refines n single completions -----

  /** `n` single completions; stops at the first that finds nothing. */
  function CompleteTimes(r: Ring, n: nat): (Ring, Option<Completion>)
    requires r.head < |r.slots| && n >= 1
    decreases n
  {
    var (s, e) := Complete(r);
    if e.None? || n == 1 then (s, e) else CompleteTimes(s, n - 1)
  }

  lemma {:induction false} CompleteTimesPosted(r: Ring, n: nat)
    requires Inv(r) && r.pos <= |r.posted| && n >= 1
    ensures CompleteTimes(r, n).1.Some? <==> r.pos + n <= |r.posted|
    ensures r.pos + n <= |r.posted| ==>
      var (s, e) := CompleteTimes(r, n);
      && Inv(s) && e == Some(r.posted[r.pos + n - 1])
      && s == r.(head := s.head, phase := s.phase, pos := r.pos + n)
    decreases n
  {
    CompleteInv(r);
    if n == 1 || r.pos == |r.posted| {
    } else {
      CompleteTimesPosted(Complete(r).0, n - 1);
    }
  }

  /** For at most a full ring of commands, the jump followed by one poll returns exactly when
      the `n`-th completion has been posted, and then leaves the same head, phase and entry as
      `n` single completions. */
  lemma CompleteNRefinesSingles(r: Ring, n: nat)
    requires Inv(r) && r.pos <= |r.posted| && 1 <= n <= |r.slots|
    ensures Complete(Jump(r, n)).1.Some? <==> r.pos + n <= |r.posted|
    ensures Complete(Jump(r, n)).1.Some? <==> CompleteTimes(r, n).1.Some?
    ensures Complete(Jump(r, n)).1.Some? ==> Complete(Jump(r, n)) == CompleteTimes(r, n)
  {
    JumpInv(r, n);
    CompleteInv(Jump(r, n));
    CompleteTimesPosted(r, n);
  }

  /** `k` single advances of head and phase. */
  function Advance(len: nat, head: nat, phase: bool, k: nat): (nat, bool)
    requires head < len
    decreases k
  {
    if k == 0 then (head, phase)
    else
      var h := (head + 1) % len;
      Advance(len, h, if h == 0 then !phase else phase, k - 1)
  }

  lemma {:induction false} AdvanceClosed(len: nat, head: nat, phase: bool, k: nat)
    requires head < len
    ensures Advance(len, head, phase, k) == ((head + k) % len, phase == EvenLap(head + k, len))
    decreases k
  {
    if k == 0 {
      Unique(head, len, 0, head);
    } else {
      hide EvenLap;
      NextSlot(head, len);
      if head + 1 == len {
        LapBack(head + k, len);
        AdvanceClosed(len, 0, !phase, k - 1);
        assert 0 + (k - 1) == head + k - len;
      } else {
        AdvanceClosed(len, head + 1, phase, k - 1);
        assert (head + 1) + (k - 1) == head + k;
      }
    }
  }

  /** For any count, the jump agrees with single advances exactly when it crosses no lap
      boundary or an odd number of them: past two laps the single phase flip is wrong. */
  lemma JumpCorrectIff(r: Ring, n: nat)
    requires r.head < |r.slots| && n >= 1
    ensures (Jump(r, n).head, Jump(r, n).phase) == Advance(|r.slots|, r.head, r.phase, n - 1)
      <==> (var laps := (r.head + (n - 1)) / |r.slots|; laps == 0 || laps % 2 == 1)
  {
    var len, s := |r.slots|, r.head + (n - 1);
    AdvanceClosed(len, r.head, r.phase, n - 1);
    if s < len {
      Unique(s, len, 0, s);
    } else {
      assert s / len >= 1;
    }
  }
}
