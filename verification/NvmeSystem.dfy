/** Host, controller, memory and disk of one I/O queue pair, as a state machine.

    The controller fetches commands in order, but executes them and posts their
    completions in any order and at any time.  Each completion carries the
    controller's submission head at the moment it is posted. */
module NvmeSystem {
  import opened Collections
  import opened NvmeTypes
  import SQ = SubmissionRing
  import CQ = CompletionRing

  const BLOCK: nat := 512
  const WRITE: nat := 1
  const READ: nat := 2

  // ----- Commands -----

  /** `io_write` and `io_read`: the block address is split over two 32-bit words and
      the block count is stored minus one. */
  function IoCommand(opcode: nat, cId: nat, nsId: nat, lba: nat, blocks: nat, prp1: nat, prp2: nat): Command
    requires blocks > 0
  {
    Command(opcode, cId, nsId, prp1, prp2,
            lba % 0x1_0000_0000, lba / 0x1_0000_0000 % 0x1_0000_0000, (blocks - 1) % 0x1_0000)
  }

  /** Starting block as the controller reads it. */
  function StartBlock(c: Command): nat {
    c.cdw10 + 0x1_0000_0000 * c.cdw11
  }

  /** First disk byte of the transfer. */
  function DiskStart(c: Command): nat {
    StartBlock(c) * BLOCK
  }

  /** Number of bytes transferred. */
  function Bytes(c: Command): nat {
    (c.cdw12 + 1) * BLOCK
  }

  /** Encoding a command and reading it back as the controller does loses nothing
      for 64-bit block addresses and up to 65536 blocks. */
  lemma CommandRoundTrip(opcode: nat, cId: nat, nsId: nat, lba: nat, blocks: nat, prp1: nat, prp2: nat)
    requires lba < 0x1_0000_0000_0000_0000 && 0 < blocks <= 0x1_0000
    ensures var c := IoCommand(opcode, cId, nsId, lba, blocks, prp1, prp2);
      && StartBlock(c) == lba && Bytes(c) == blocks * BLOCK
      && c.opcode == opcode && c.cId == cId && c.nsId == nsId && c.prp1 == prp1 && c.prp2 == prp2
  {
  }

  /** The address with its two low bits clear. */
  function Dword(a: nat): nat {
    a - a % 4
  }

  /** Where the transfer starts: section 4.3 demands a first PRP entry aligned to four bytes, and a
      controller that reports no error takes its two low bits for zero. */
  function FirstAddress(c: Command): nat {
    Dword(c.prp1)
  }

  /** Bytes of the transfer that lie in the page of the first PRP entry. */
  function FirstPage(c: Command): nat {
    PAGE - FirstAddress(c) % PAGE
  }

  /** Physical address of byte `j` of the transfer (sections 4.3 and 4.4: two PRP entries, no list). */
  function PrpAddress(c: Command, j: nat): nat {
    if j < FirstPage(c) then FirstAddress(c) + j else c.prp2 + (j - FirstPage(c))
  }

  /** The transfer needs no PRP list, lies on the disk and in memory, and its two pages do not overlap. */
  predicate Executable(c: Command, memSize: nat, diskSize: nat) {
    && c.opcode in {WRITE, READ}
    && Bytes(c) <= FirstPage(c) + PAGE
    && DiskStart(c) + Bytes(c) <= diskSize
    && FirstAddress(c) + (if Bytes(c) <= FirstPage(c) then Bytes(c) else FirstPage(c)) <= memSize
    && (Bytes(c) > FirstPage(c) ==>
          && c.prp2 % PAGE == 0 && c.prp2 + (Bytes(c) - FirstPage(c)) <= memSize
          && c.prp2 != FirstAddress(c) - FirstAddress(c) % PAGE)
  }

  /** Which byte of the transfer, if any, has physical address `a`. */
  function PrpIndex(c: Command, a: nat): Option<nat> {
    var first := if Bytes(c) <= FirstPage(c) then Bytes(c) else FirstPage(c);
    if FirstAddress(c) <= a < FirstAddress(c) + first then Some(a - FirstAddress(c))
    else if Bytes(c) > FirstPage(c) && c.prp2 <= a < c.prp2 + (Bytes(c) - FirstPage(c)) then
      Some(FirstPage(c) + (a - c.prp2))
    else None
  }

  lemma PrpInverse(c: Command, memSize: nat, diskSize: nat, a: nat, j: nat)
    requires Executable(c, memSize, diskSize)
    ensures PrpIndex(c, a) == Some(j) <==> j < Bytes(c) && PrpAddress(c, j) == a
    ensures j < Bytes(c) ==> PrpAddress(c, j) < memSize
  {
    hide Dword, DiskStart, Bytes;
    if j < Bytes(c) && PrpAddress(c, j) == a && j >= FirstPage(c) {
      var start := FirstAddress(c);
      var p1, p2 := start / PAGE, c.prp2 / PAGE;
      assert c.prp2 == PAGE * p2 && start - start % PAGE == PAGE * p1;
      assert a < c.prp2 + PAGE;
    }
  }

  /** The data movement of one command. */
  function Transfer(mem: seq<byte>, disk: seq<byte>, c: Command): (r: (seq<byte>, seq<byte>))
    ensures |r.0| == |mem| && |r.1| == |disk|
  {
    if !Executable(c, |mem|, |disk|) then (mem, disk)
    else if c.opcode == WRITE then
      (mem, seq(|disk|, x requires 0 <= x < |disk| =>
         if DiskStart(c) <= x < DiskStart(c) + Bytes(c) then
           PrpInverse(c, |mem|, |disk|, PrpAddress(c, x - DiskStart(c)), x - DiskStart(c));
           mem[PrpAddress(c, x - DiskStart(c))]
         else disk[x]))
    else
      (seq(|mem|, a requires 0 <= a < |mem| =>
         match PrpIndex(c, a)
         case Some(j) => disk[DiskStart(c) + j]
         case None => mem[a]), disk)
  }

  // ----- The system -----

  /** `heads[i]` is how many commands were fetched when completion `i` was posted and `finished[i]`
      which command it is for; `seen` counts the completions behind the host's submission head. */
  datatype System = System(
    sq: SQ.Ring, cq: CQ.Ring, mem: seq<byte>, disk: seq<byte>,
    executed: set<nat>, finished: seq<nat>, heads: seq<nat>, seen: nat)

  datatype Action = Fetch | Execute(k: nat) | Finish(k: nat)

  /** One step of the controller; a step that is not enabled does nothing.  Completions report success. */
  function Act(s: System, a: Action): System
    requires s.sq.fetch < |s.sq.slots| && s.cq.tail < |s.cq.slots|
  {
    match a
    case Fetch => s.(sq := SQ.Fetch(s.sq))
    case Execute(k) =>
      if k < |s.sq.fetched| && k !in s.executed then
        var (m, d) := Transfer(s.mem, s.disk, s.sq.fetched[k]);
        s.(mem := m, disk := d, executed := s.executed + {k})
      else s
    case Finish(k) =>
      if k < |s.sq.fetched| && k in s.executed && k !in s.finished && CQ.CanPost(s.cq) then
        s.(cq := CQ.Post(s.cq, Completion(s.sq.fetch, s.sq.fetched[k].cId, 0)),
           finished := s.finished + [k], heads := s.heads + [|s.sq.fetched|])
      else s
  }

  function Acts(s: System, actions: seq<Action>): System
    requires s.sq.fetch < |s.sq.slots| && s.cq.tail < |s.cq.slots|
    decreases |actions|
  {
    if actions == [] then s else Acts(Act(s, actions[0]), actions[1..])
  }

  lemma {:induction false} ActsAppend(s: System, a: seq<Action>, b: seq<Action>)
    requires s.sq.fetch < |s.sq.slots| && s.cq.tail < |s.cq.slots|
    ensures var t := Acts(s, a);
      && t.sq.fetch < |t.sq.slots| && t.cq.tail < |t.cq.slots|
      && Acts(t, b) == Acts(s, a + b)
    decreases |a|
  {
    if a == [] {
      assert a + b == b;
    } else {
      assert (a + b)[0] == a[0] && (a + b)[1..] == a[1..] + b;
      ActsAppend(Act(s, a[0]), a[1..], b);
    }
  }

  // ----- Steps of the host -----

  function Submit(s: System, c: Command): System
    requires s.sq.tail < |s.sq.slots|
  {
    s.(sq := SQ.SubmitChecked(s.sq, c))
  }

  function RingTail(s: System): System {
    s.(sq := SQ.RingDoorbell(s.sq))
  }

  function BeginWait(s: System, n: nat): System
    requires |s.cq.slots| > 0 && n >= 1
  {
    s.(cq := CQ.Jump(s.cq, n))
  }

  /** One poll; on success the host also takes over the reported submission head. */
  function Poll(s: System): (System, Option<Completion>)
    requires s.cq.head < |s.cq.slots|
  {
    var (r, e) := CQ.Complete(s.cq);
    match e
    case None => (s, None)
    case Some(c) =>
      var known := if s.cq.pos < |s.heads| then s.heads[s.cq.pos] else 0;
      (s.(cq := r, sq := SQ.LearnHead(s.sq, c.sqHead, known), seen := r.pos), e)
  }

  function RingHead(s: System): System {
    s.(cq := CQ.RingDoorbell(s.cq))
  }

  // ----- Invariant -----

  /** `waiting` tells whether the host is inside `complete_n`, with its completion head ahead of
      what it has consumed. */
  ghost predicate Inv(s: System, waiting: bool) {
    && SQ.Inv(s.sq) && CQ.Inv(s.cq)
    && |s.finished| == |s.heads| == |s.cq.posted|
    && NoDuplicates(s.finished)
    && (forall k :: k in s.executed ==> k < |s.sq.fetched|)
    && (forall i :: 0 <= i < |s.finished| ==> s.finished[i] in s.executed)
    && (forall i :: 0 <= i < |s.heads| ==>
          && i + 1 <= s.heads[i] <= |s.sq.fetched|
          && s.cq.posted[i].sqHead == s.heads[i] % |s.sq.slots|
          && s.cq.posted[i].cId == s.sq.submitted[s.finished[i]].cId
          && StatusCode(s.cq.posted[i]) == 0)
    && (forall i, j :: 0 <= i < j < |s.heads| ==> s.heads[i] <= s.heads[j])
    && s.seen <= |s.cq.posted| && s.seen <= s.cq.pos
    && s.sq.known == (if s.seen == 0 then 0 else s.heads[s.seen - 1])
    && (!waiting ==> s.cq.pos == s.seen)
  }

  function Fresh(sqSlots: seq<Command>, cqSlots: seq<Completion>, mem: seq<byte>, disk: seq<byte>): System {
    System(SQ.Fresh(sqSlots), CQ.Fresh(cqSlots), mem, disk, {}, [], [], 0)
  }

  lemma InvBounds(s: System, waiting: bool)
    requires Inv(s, waiting)
    ensures s.sq.fetch < |s.sq.slots| && s.sq.tail < |s.sq.slots|
    ensures s.cq.tail < |s.cq.slots| && s.cq.head < |s.cq.slots|
  {
  }

  lemma FreshInv(sqSlots: seq<Command>, cqSlots: seq<Completion>, mem: seq<byte>, disk: seq<byte>)
    requires 2 <= |sqSlots| && 2 <= |cqSlots| && CQ.PhasesClear(cqSlots)
    ensures Inv(Fresh(sqSlots, cqSlots, mem, disk), false)
  {
    SQ.FreshInv(sqSlots);
    CQ.FreshInv(cqSlots);
  }

  lemma FinishedBound(s: System, waiting: bool)
    requires Inv(s, waiting)
    ensures |s.finished| <= |s.sq.fetched|
    ensures |s.finished| == |s.sq.fetched| ==> forall k :: 0 <= k < |s.sq.fetched| ==> k in s.executed
  {
    forall i | 0 <= i < |s.finished| ensures s.finished[i] < |s.sq.fetched| {
      assert s.finished[i] in s.executed;
    }
    Pigeonhole(s.finished, |s.sq.fetched|);
    if |s.finished| == |s.sq.fetched| {
      forall k | 0 <= k < |s.sq.fetched| ensures k in s.executed {
        assert k in s.finished;
      }
    }
  }

  // ----- Preservation -----

  lemma ExecuteInv(s: System, k: nat, waiting: bool)
    requires Inv(s, waiting)
    ensures Inv(Act(s, Execute(k)), waiting)
  {
  }

  lemma FetchInv(s: System, waiting: bool)
    requires Inv(s, waiting)
    ensures Inv(Act(s, Fetch), waiting)
  {
    SQ.FetchInv(s.sq);
  }

  lemma FetchedPrefix(r: SQ.Ring)
    requires SQ.Inv(r)
    ensures 2 <= |r.slots| && |r.fetched| <= |r.submitted| && r.fetch == |r.fetched| % |r.slots|
    ensures forall k :: 0 <= k < |r.fetched| ==> r.fetched[k] == r.submitted[k]
  {
  }

  /** There is room for one more finished command among those fetched. */
  lemma FinishBound(s: System, k: nat, waiting: bool)
    requires Inv(s, waiting) && k in s.executed && k !in s.finished
    ensures |s.finished| + 1 <= |s.sq.fetched|
  {
    hide SQ.Inv, CQ.Inv;
    var finished := s.finished + [k];
    forall i | 0 <= i < |finished| ensures finished[i] < |s.sq.fetched| {
      assert finished[i] in s.executed;
    }
    NoDuplicatesAppend(s.finished, k);
    Pigeonhole(finished, |s.sq.fetched|);
  }

  lemma FinishInv(s: System, k: nat, waiting: bool)
    requires Inv(s, waiting)
    ensures Inv(Act(s, Finish(k)), waiting)
  {
    hide SQ.Inv, CQ.Inv, NoDuplicates;
    InvBounds(s, waiting);
    FetchedPrefix(s.sq);
    if k < |s.sq.fetched| && k in s.executed && k !in s.finished && CQ.CanPost(s.cq) {
      CQ.PostInv(s.cq, Completion(s.sq.fetch, s.sq.fetched[k].cId, 0));
      NoDuplicatesAppend(s.finished, k);
      FinishBound(s, k, waiting);
    }
  }

  lemma ActInv(s: System, a: Action, waiting: bool)
    requires Inv(s, waiting)
    ensures Inv(Act(s, a), waiting)
  {
    match a
    case Fetch => FetchInv(s, waiting);
    case Execute(k) => ExecuteInv(s, k, waiting);
    case Finish(k) => FinishInv(s, k, waiting);
  }

  lemma {:induction false} ActsInv(s: System, actions: seq<Action>, waiting: bool)
    requires Inv(s, waiting)
    ensures Inv(Acts(s, actions), waiting)
    decreases |actions|
  {
    if actions == [] {
    } else {
      ActInv(s, actions[0], waiting);
      ActsInv(Act(s, actions[0]), actions[1..], waiting);
    }
  }

  /** What the controller cannot change. */
  lemma {:induction false} ActsFrame(s: System, actions: seq<Action>)
    requires s.sq.fetch < |s.sq.slots| && s.cq.tail < |s.cq.slots|
    ensures var t := Acts(s, actions);
      && t.sq.submitted == s.sq.submitted && t.sq.known == s.sq.known && t.sq.tail == s.sq.tail
      && t.seen == s.seen && t.cq.pos == s.cq.pos
      && t.sq.rung == s.sq.rung && t.cq.rung == s.cq.rung && s.cq.posted <= t.cq.posted
      && |t.sq.slots| == |s.sq.slots| && |t.cq.slots| == |s.cq.slots|
      && |t.mem| == |s.mem| && |t.disk| == |s.disk|
    decreases |actions|
  {
    if actions == [] {
    } else {
      ActsFrame(Act(s, actions[0]), actions[1..]);
    }
  }

  lemma SubmitInv(s: System, c: Command)
    requires Inv(s, false)
    ensures Inv(Submit(s, c), false)
  {
    if !SQ.IsFull(s.sq) {
      SQ.SubmitInv(s.sq, c);
    }
  }

  lemma RingTailInv(s: System)
    requires Inv(s, false)
    ensures Inv(RingTail(s), false)
  {
  }

  lemma BeginWaitInv(s: System, n: nat)
    requires Inv(s, false) && 1 <= n <= |s.cq.slots|
    ensures Inv(BeginWait(s, n), true) && BeginWait(s, n).cq.pos == s.seen + (n - 1)
  {
    CQ.JumpInv(s.cq, n);
  }

  /** A poll returns exactly the completion at the host's position once it has been posted. */
  lemma PollInv(s: System, waiting: bool)
    requires Inv(s, waiting)
    ensures var (t, e) := Poll(s);
      && e == (if s.cq.pos < |s.cq.posted| then Some(s.cq.posted[s.cq.pos]) else None)
      && (e.None? ==> t == s)
      && (e.Some? ==> Inv(t, false) && t.seen == s.cq.pos + 1 && StatusCode(e.value) == 0)
      && t.sq.submitted == s.sq.submitted
  {
    hide SQ.Inv, CQ.Inv, CQ.Complete;
    InvBounds(s, waiting);
    CQ.CompleteInv(s.cq);
    CQ.CompleteKeeps(s.cq);
    if s.cq.pos < |s.cq.posted| {
      SQ.LearnHeadInv(s.sq, s.heads[s.cq.pos]);
    }
  }

  lemma RingHeadInv(s: System)
    requires Inv(s, false)
    ensures Inv(RingHead(s), false)
  {
    CQ.DoorbellInv(s.cq);
  }

  // ----- Every run of a queue pair -----

  datatype Event =
    | SubmitEvent(c: Command) | TailEvent | HeadEvent
    | PollEvent | WaitEvent(n: nat) | Controller(a: Action)

  /** One step of host or controller.  While it waits in `complete_n` the host only polls. */
  function Step(s: System, waiting: bool, e: Event): (System, bool)
    requires s.sq.fetch < |s.sq.slots| && s.sq.tail < |s.sq.slots|
    requires s.cq.tail < |s.cq.slots| && s.cq.head < |s.cq.slots|
  {
    match e
    case Controller(a) => (Act(s, a), waiting)
    case PollEvent => var (t, got) := Poll(s); (t, waiting && got.None?)
    case SubmitEvent(c) => (if waiting then s else Submit(s, c), waiting)
    case TailEvent => (if waiting then s else RingTail(s), waiting)
    case HeadEvent => (if waiting then s else RingHead(s), waiting)
    case WaitEvent(n) => if waiting || !(1 <= n <= |s.cq.slots|) then (s, waiting) else (BeginWait(s, n), true)
  }

  lemma StepInv(s: System, waiting: bool, e: Event)
    requires Inv(s, waiting)
    ensures Inv(Step(s, waiting, e).0, Step(s, waiting, e).1)
  {
    hide Inv, Act, Poll, Submit, RingTail, RingHead, BeginWait;
    InvBounds(s, waiting);
    match e
    case Controller(a) => ActInv(s, a, waiting);
    case PollEvent => PollInv(s, waiting);
    case SubmitEvent(c) => if !waiting { SubmitInv(s, c); }
    case TailEvent => if !waiting { RingTailInv(s); }
    case HeadEvent => if !waiting { RingHeadInv(s); }
    case WaitEvent(n) => if !waiting && 1 <= n <= |s.cq.slots| { BeginWaitInv(s, n); }
  }

  ghost function Run(s: System, waiting: bool, events: seq<Event>): (System, bool)
    requires Inv(s, waiting)
    ensures Inv(Run(s, waiting, events).0, Run(s, waiting, events).1)
    decreases |events|
  {
    if events == [] then (s, waiting)
    else
      StepInv(s, waiting, events[0]);
      var (t, w) := Step(s, waiting, events[0]);
      Run(t, w, events[1..])
  }

  ghost function RunFresh(sqSlots: seq<Command>, cqSlots: seq<Completion>,
                          mem: seq<byte>, disk: seq<byte>, events: seq<Event>): System
    requires 2 <= |sqSlots| && 2 <= |cqSlots| && CQ.PhasesClear(cqSlots)
  {
    FreshInv(sqSlots, cqSlots, mem, disk);
    Run(Fresh(sqSlots, cqSlots, mem, disk), false, events).0
  }

  /** On every run of a queue pair whose completion memory starts with clear phase tags:
      the controller has fetched exactly the first submissions in order, nothing it has yet to
      fetch was overwritten, the host's head is never ahead of the controller's, and
      `submit_checked` refuses exactly when one more command would not fit behind that head. */
  lemma SubmissionsReachController(sqSlots: seq<Command>, cqSlots: seq<Completion>,
                                   mem: seq<byte>, disk: seq<byte>, events: seq<Event>)
    requires 2 <= |sqSlots| && 2 <= |cqSlots| && CQ.PhasesClear(cqSlots)
    ensures var s := RunFresh(sqSlots, cqSlots, mem, disk, events);
      && 2 <= |s.sq.slots| && s.sq.fetched <= s.sq.submitted
      && (forall k :: |s.sq.fetched| <= k < |s.sq.submitted| ==>
            s.sq.slots[k % |s.sq.slots|] == s.sq.submitted[k])
      && s.sq.known <= |s.sq.fetched|
      && (SQ.IsFull(s.sq) <==> |s.sq.submitted| - s.sq.known == |s.sq.slots| - 1)
      && (forall i :: 0 <= i < |s.cq.posted| ==>
            && i < |s.finished| && s.finished[i] in s.executed && s.finished[i] < |s.sq.submitted|
            && s.cq.posted[i].cId == s.sq.submitted[s.finished[i]].cId)
  {
    FreshInv(sqSlots, cqSlots, mem, disk);
    SQ.IsFullIff(RunFresh(sqSlots, cqSlots, mem, disk, events).sq);
  }

  // ----- Quiescence -----

  /** Nothing is in flight: every submitted command has completed and the host knows it. */
  ghost predicate Quiet(s: System) {
    Inv(s, false) && s.seen == |s.sq.submitted|
  }

  /** A new queue pair over a completion ring with clear phase bits is quiet. */
  lemma FreshQuiet(sqSlots: seq<Command>, cqSlots: seq<Completion>, mem: seq<byte>, disk: seq<byte>)
    requires 2 <= |sqSlots| && 2 <= |cqSlots| && CQ.PhasesClear(cqSlots)
    ensures Quiet(Fresh(sqSlots, cqSlots, mem, disk))
  {
    FreshInv(sqSlots, cqSlots, mem, disk);
  }

  /** When the host has seen as many completions as it submitted commands, all commands have been
      executed and its submission ring is empty, whatever order the controller worked in. */
  lemma QuietMeansDone(s: System)
    requires Quiet(s)
    ensures s.sq.known == |s.sq.fetched| == |s.sq.submitted| == |s.cq.posted|
    ensures s.sq.head == s.sq.tail
    ensures forall k :: 0 <= k < |s.sq.submitted| ==> k in s.executed
  {
    FinishedBound(s, false);
    SQ.IsEmptyIff(s.sq);
  }

  lemma QuietStore(s: System, mem: seq<byte>)
    requires Quiet(s)
    ensures Quiet(s.(mem := mem))
  {
  }
}
