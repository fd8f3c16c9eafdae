/** The driver's queue objects and the channel they form with a controller. */
module NvmeQueues {
  import opened Collections
  import opened NvmeTypes
  import opened NvmeSystem
  import opened NvmeProgress
  import SQ = SubmissionRing

  class NvmeSubQueue {
    const commands: array<Command>
    var head: nat
    var tail: nat

    predicate Valid()
      reads this
    {
      tail < commands.Length <= QUEUE_LENGTH
    }

    constructor (len: nat)
      requires len >= 1
      ensures Valid() && fresh(commands)
      ensures commands.Length == (if len < QUEUE_LENGTH then len else QUEUE_LENGTH) && head == tail == 0
    {
      var n := if len < QUEUE_LENGTH then len else QUEUE_LENGTH;
      commands := new Command[n];
      head, tail := 0, 0;
    }

    method Submit(entry: Command) returns (newTail: nat)
      requires Valid()
      modifies this`tail, commands
      ensures Valid() && newTail == tail == (old(tail) + 1) % commands.Length
      ensures commands[..] == old(commands[..])[old(tail) := entry]
    {
      commands[tail] := entry;
      tail := (tail + 1) % commands.Length;
      newTail := tail;
    }

    method SubmitChecked(entry: Command) returns (newTail: Option<nat>)
      requires Valid()
      modifies this`tail, commands
      ensures Valid()
      ensures newTail.None? <==> head == (old(tail) + 1) % commands.Length
      ensures newTail.None? ==> tail == old(tail) && commands[..] == old(commands[..])
      ensures newTail.Some? ==>
        && newTail.value == tail == (old(tail) + 1) % commands.Length
        && commands[..] == old(commands[..])[old(tail) := entry]
    {
      if head == (tail + 1) % commands.Length {
        newTail := None;
      } else {
        var t := Submit(entry);
        newTail := Some(t);
      }
    }
  }

  class NvmeCompQueue {
    const commands: array<Completion>
    var head: nat
    var phase: bool

    predicate Valid()
      reads this
    {
      head < commands.Length <= QUEUE_LENGTH
    }

    constructor (len: nat)
      requires len >= 1
      ensures Valid() && fresh(commands)
      ensures commands.Length == (if len < QUEUE_LENGTH then len else QUEUE_LENGTH) && head == 0 && phase
    {
      var n := if len < QUEUE_LENGTH then len else QUEUE_LENGTH;
      commands := new Completion[n];
      head, phase := 0, true;
    }

    /** New head, entry and previous head. */
    method Complete() returns (r: Option<(nat, Completion, nat)>)
      requires Valid()
      modifies this
      ensures Valid()
      ensures r.Some? <==> PhaseTag(commands[old(head)]) == old(phase)
      ensures r.None? ==> head == old(head) && phase == old(phase)
      ensures r.Some? ==>
        && r.value == (head, commands[old(head)], old(head))
        && head == (old(head) + 1) % commands.Length
        && phase == if head == 0 then !old(phase) else old(phase)
    {
      var entry := commands[head];
      if PhaseTag(entry) == phase {
        var prev := head;
        head := (head + 1) % commands.Length;
        if head == 0 {
          phase := !phase;
        }
        r := Some((head, entry, prev));
      } else {
        r := None;
      }
    }

    /** The head and phase computation at the start of `complete_n`. */
    method SkipTo(n: nat)
      requires Valid() && n >= 1
      modifies this
      ensures Valid()
      ensures head == (old(head) + (n - 1)) % commands.Length
      ensures phase == if old(head) + (n - 1) >= commands.Length then !old(phase) else old(phase)
    {
      head := head + (n - 1);
      if head >= commands.Length {
        phase := !phase;
      }
      head := head % commands.Length;
    }
  }

  /** `t` is `s` after an accepted submission, the tail doorbell and the controller's steps `acts`. */
  ghost predicate Accepted(s: System, c: Command, acts: seq<Action>, t: System) {
    && s.sq.tail < |s.sq.slots|
    && var u := RingTail(Submit(s, c));
    u.sq.fetch < |u.sq.slots| && u.cq.tail < |u.cq.slots| && t == Acts(u, acts)
  }

  function Rest(schedule: seq<seq<Action>>): seq<seq<Action>> {
    if schedule == [] then [] else schedule[1..]
  }

  /** A submission and a completion queue with the controller at their other end.

      `rest` holds everything that is not a field of the two queue objects: doorbells,
      controller, memory, disk and history.  `schedule` says what the controller does at each of
      the host's next scheduling points, so a claim about every schedule is a claim about every
      interleaving.  A spin loop that outlasts the schedule is reported as `None`. */
  class Channel {
    const sq: NvmeSubQueue
    const cq: NvmeCompQueue
    var rest: System
    var schedule: seq<seq<Action>>
    ghost var state: System   // what the fields and arrays add up to

    function View(): System
      reads this, sq, cq, sq.commands, cq.commands
    {
      rest.(sq := rest.sq.(slots := sq.commands[..], head := sq.head, tail := sq.tail),
            cq := rest.cq.(slots := cq.commands[..], head := cq.head, phase := cq.phase))
    }

    ghost predicate Valid()
      reads this, sq, cq, sq.commands, cq.commands
    {
      && sq.Valid() && cq.Valid() && state == View()
      && state.sq.fetch < |state.sq.slots| && state.cq.tail < |state.cq.slots|
      && state.sq.tail < |state.sq.slots| && state.cq.head < |state.cq.slots|
    }

    ghost function Repr(): set<object> {
      {this, sq, cq, sq.commands, cq.commands}
    }

    constructor (sq: NvmeSubQueue, cq: NvmeCompQueue, mem: seq<byte>, disk: seq<byte>, schedule: seq<seq<Action>>)
      requires sq.Valid() && cq.Valid() && sq.head == sq.tail == cq.head == 0 && cq.phase
      ensures Valid() && this.sq == sq && this.cq == cq && this.schedule == schedule
      ensures state == Fresh(sq.commands[..], cq.commands[..], mem, disk)
    {
      this.sq, this.cq, this.schedule := sq, cq, schedule;
      rest := Fresh([], [], mem, disk);
      state := Fresh(sq.commands[..], cq.commands[..], mem, disk);
    }

    method ControllerStep(a: Action)
      requires Valid()
      modifies Repr()
      ensures Valid() && state == Act(old(state), a) && schedule == old(schedule)
    {
      var s := View();
      var t := Act(s, a);
      if t.cq.slots != s.cq.slots {
        cq.commands[s.cq.tail] := t.cq.slots[s.cq.tail];
      }
      rest := t;
      assert cq.commands[..] == t.cq.slots;
      state := t;
    }

    /** A scheduling point of the host. */
    method Interleave() returns (ghost acts: seq<Action>)
      requires Valid()
      modifies Repr()
      ensures Valid() && state == Acts(old(state), acts)
      ensures schedule == Rest(old(schedule))
      ensures acts == if old(schedule) == [] then [] else old(schedule)[0]
    {
      acts := [];
      if schedule != [] {
        var actions := schedule[0];
        schedule := schedule[1..];
        var i := 0;
        while i < |actions|
          invariant 0 <= i <= |actions|
          invariant Valid() && schedule == old(schedule)[1..]
          invariant state == Acts(old(state), actions[..i])
        {
          ControllerStep(actions[i]);
          ActsAppend(old(state), actions[..i], [actions[i]]);
          assert actions[..i + 1] == actions[..i] + [actions[i]];
          assert [actions[i]][1..] == [];
          i := i + 1;
        }
        acts := actions;
        assert actions[..i] == actions;
      }
    }

    method SubmitChecked(c: Command) returns (r: Option<nat>)
      requires Valid()
      modifies Repr()
      ensures Valid() && state == Submit(old(state), c) && schedule == old(schedule)
      ensures r.None? <==> SQ.IsFull(old(state).sq)
      ensures r.Some? ==> r.value == state.sq.tail
    {
      r := sq.SubmitChecked(c);
      if r.Some? {
        rest := rest.(sq := rest.sq.(submitted := rest.sq.submitted + [c]));
      }
      state := View();
    }

    /** A checked submission, the tail doorbell if it was accepted, and a scheduling point. */
    method SubmitAndRing(c: Command) returns (r: Option<nat>, ghost acts: seq<Action>)
      requires Valid()
      modifies Repr()
      ensures Valid() && (r.None? <==> SQ.IsFull(old(state).sq))
      ensures r.None? ==> state == old(state) && schedule == old(schedule)
      ensures r.Some? ==> schedule == Rest(old(schedule))
      ensures r.Some? ==>
        && Accepted(old(state), c, acts, state)
        && r.value == NvmeSystem.RingTail(Submit(old(state), c)).sq.tail
    {
      acts := [];
      r := SubmitChecked(c);
      if r.Some? {
        RingTail();
        acts := Interleave();
      }
    }

    /** The unchecked `submit` and the tail doorbell. */
    method SubmitUnchecked(c: Command) returns (newTail: nat)
      requires Valid()
      modifies Repr()
      ensures Valid() && state == NvmeSystem.RingTail(old(state).(sq := SQ.Submit(old(state).sq, c)))
      ensures newTail == state.sq.tail && schedule == old(schedule)
    {
      newTail := sq.Submit(c);
      rest := rest.(sq := rest.sq.(submitted := rest.sq.submitted + [c]));
      state := View();
      RingTail();
    }

    method Tail() returns (tail: nat)
      requires Valid()
      ensures tail == state.sq.tail < |state.sq.slots| <= QUEUE_LENGTH
    {
      tail := sq.tail;
    }

    method LoadMemory(at: nat, n: nat) returns (bytes: seq<byte>)
      requires Valid() && at + n <= |state.mem|
      ensures bytes == state.mem[at..at + n]
    {
      bytes := rest.mem[at..at + n];
    }

    /** The host overwrites memory that commands may refer to; only done while none is in flight. */
    method StoreMemory(at: nat, bytes: seq<byte>)
      requires Valid() && Quiet(state) && at + |bytes| <= |state.mem|
      modifies this
      ensures Valid() && schedule == old(schedule)
      ensures state == old(state).(mem := old(state).mem[..at] + bytes + old(state).mem[at + |bytes|..])
    {
      rest := rest.(mem := rest.mem[..at] + bytes + rest.mem[at + |bytes|..]);
      state := View();
    }

    method RingTail()
      requires Valid()
      modifies this
      ensures Valid() && state == NvmeSystem.RingTail(old(state)) && schedule == old(schedule)
    {
      rest := rest.(sq := rest.sq.(doorbell := sq.tail, rung := |rest.sq.submitted|));
      state := View();
    }

    method RingHead()
      requires Valid()
      modifies this
      ensures Valid() && state == NvmeSystem.RingHead(old(state)) && schedule == old(schedule)
    {
      rest := rest.(cq := rest.cq.(doorbell := cq.head, rung := rest.cq.pos));
      state := View();
    }

    method PollOnce() returns (r: Option<Completion>)
      requires Valid()
      modifies Repr()
      ensures Valid() && (state, r) == Poll(old(state)) && schedule == old(schedule)
    {
      var got := cq.Complete();
      if got.None? {
        r := None;
      } else {
        r := Some(got.value.1);
        var known := if rest.cq.pos < |rest.heads| then rest.heads[rest.cq.pos] else 0;
        sq.head := got.value.1.sqHead;
        rest := rest.(cq := rest.cq.(pos := rest.cq.pos + 1), seen := rest.cq.pos + 1, sq := rest.sq.(known := known));
      }
      state := View();
    }

    /** `complete_spin`: polls between the controller's steps until an entry has arrived. */
    method CompleteSpin() returns (r: Option<Completion>, ghost acts: seq<Action>)
      requires Valid()
      modifies Repr()
      ensures Valid()
      ensures var s := old(state);
        && Acts(s, acts).cq.head < |Acts(s, acts).cq.slots|
        && (state, r) == Poll(Acts(s, acts))
      ensures SpinUsed(old(state), old(schedule), schedule, acts) && (r.None? ==> schedule == [])
    {
      hide SpinUsed, Flat;
      r, acts := None, [];
      ghost var s := state;
      SpinStart(s, schedule);
      r := PollOnce();
      while r.None? && schedule != []
        invariant Valid() && SpinUsed(s, old(schedule), schedule, acts)
        invariant Acts(s, acts).cq.head < |Acts(s, acts).cq.slots|
        invariant (state, r) == Poll(Acts(s, acts))
        invariant r.None? ==> state == Acts(s, acts)
        decreases |schedule|
      {
        SpinNext(s, old(schedule), schedule, acts);
        ghost var more := Interleave();
        ActsAppend(s, acts, more);
        acts := acts + more;
        r := PollOnce();
      }
    }

    /** `complete_n`. */
    method CompleteN(n: nat) returns (r: Option<Completion>, ghost acts: seq<Action>)
      requires Valid() && n >= 1
      modifies Repr()
      ensures Valid()
      ensures var s := BeginWait(old(state), n);
        && s.sq.fetch < |s.sq.slots| && s.cq.tail < |s.cq.slots|
        && Acts(s, acts).cq.head < |Acts(s, acts).cq.slots|
        && (state, r) == Poll(Acts(s, acts))
        && SpinUsed(s, old(schedule), schedule, acts)
      ensures r.None? ==> schedule == []
    {
      hide Acts, Poll, SpinUsed;
      cq.SkipTo(n);
      rest := rest.(cq := rest.cq.(pos := rest.cq.pos + (n - 1)));
      state := View();
      r, acts := CompleteSpin();
    }
  }
}
