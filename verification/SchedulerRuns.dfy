/** Whole runs of the scheduler over any number of processors. */
module SchedulerRuns {
  import opened Collections
  import opened ContextSwitch
  import opened Scheduling

  datatype Event =
    | AddThread(t: nat)
    | RemoveThread(t: nat)
    | Timer(cpu: nat, context: Context)     // `schedule` on a processor
    | SetState(t: nat, state: ThreadState)  // the rest of the kernel changes a thread's state
    | Spawn(t: nat, thread: Thread)         // a new thread object
    | Drop(t: nat)                          // the last strong reference goes away

  /** The event does not panic. */
  ghost predicate Enabled(s: Sched, e: Event) {
    match e
    case AddThread(t) => true
    case RemoveThread(t) => (forall q :: q in s.ready ==> q in s.threads) && (s.ready != [] ==> t in s.threads)
    case Timer(cpu, context) =>
      cpu in s.current && Next(s, cpu) in s.threads
    case SetState(t, state) => t in s.threads
    case Spawn(t, thread) => t !in s.threads && !Member(s, t)
    case Drop(t) => true
  }

  ghost function Apply(s: Sched, e: Event): Sched
    requires Enabled(s, e)
  {
    match e
    case AddThread(t) => Add(s, t)
    case RemoveThread(t) => Remove(s, t)
    case Timer(cpu, context) => Schedule(s, cpu, context)
    case SetState(t, state) => s.(threads := s.threads[t := s.threads[t].(state := state)])
    case Spawn(t, thread) => s.(threads := s.threads[t := thread])
    case Drop(t) => s.(threads := s.threads - {t})
  }

  ghost predicate Possible(s: Sched, events: seq<Event>)
    decreases |events|
  {
    events == [] || (Enabled(s, events[0]) && Possible(Apply(s, events[0]), events[1..]))
  }

  ghost function Run(s: Sched, events: seq<Event>): Sched
    requires Possible(s, events)
    decreases |events|
  {
    if events == [] then s else Run(Apply(s, events[0]), events[1..])
  }

  /** Threads are only added while neither queued nor current. */
  ghost predicate AddsNew(s: Sched, events: seq<Event>)
    requires Possible(s, events)
    decreases |events|
  {
    events == [] || ((events[0].AddThread? ==> !Member(s, events[0].t)) && AddsNew(Apply(s, events[0]), events[1..]))
  }

  lemma ApplyInv(s: Sched, e: Event)
    requires Inv(s) && Enabled(s, e) && (e.AddThread? ==> !Member(s, e.t))
    ensures Inv(Apply(s, e))
  {
    match e
    case AddThread(t) => AddInv(s, t);
    case RemoveThread(t) => RemoveInv(s, t);
    case Timer(cpu, context) => ScheduleInv(s, cpu, context);
    case _ =>
  }

  /** On every run no thread is queued twice, current twice, or both. */
  lemma {:induction false} RunInv(s: Sched, events: seq<Event>)
    requires Inv(s) && Possible(s, events) && AddsNew(s, events)
    ensures Inv(Run(s, events))
    decreases |events|
  {
    if events == [] {
    } else {
      ApplyInv(s, events[0]);
      RunInv(Apply(s, events[0]), events[1..]);
    }
  }

  /** Only adding makes a thread a member. */
  lemma ApplyMember(s: Sched, e: Event, t: nat)
    requires Inv(s) && Enabled(s, e) && (e.AddThread? ==> !Member(s, e.t))
    ensures Member(Apply(s, e), t) ==> Member(s, t) || e == AddThread(t)
  {
    match e
    case AddThread(u) => AddInv(s, u);
    case RemoveThread(u) => RemoveInv(s, u);
    case Timer(cpu, context) => ScheduleInv(s, cpu, context);
    case _ =>
  }

  /** A thread that is neither queued nor current does not run on any processor until it is added. */
  lemma {:induction false} NotRunUntilAdded(s: Sched, events: seq<Event>, t: nat)
    requires Inv(s) && Possible(s, events) && AddsNew(s, events)
    requires !Member(s, t) && AddThread(t) !in events
    ensures !Member(Run(s, events), t)
    decreases |events|
  {
    if events == [] {
    } else {
      ApplyInv(s, events[0]);
      ApplyMember(s, events[0], t);
      assert forall e :: e in events[1..] ==> e in events;
      NotRunUntilAdded(Apply(s, events[0]), events[1..], t);
    }
  }

  /** After any run, a thread that a processor switches away from while it is blocked, waiting or terminated
      leaves the population at that switch and stays out of it until it is added again. */
  lemma BlockedUntilAdded(s: Sched, before: seq<Event>, cpu: nat, context: Context, after: seq<Event>, t: nat)
    requires Inv(s) && Possible(s, before) && AddsNew(s, before)
    requires Enabled(Run(s, before), Timer(cpu, context))
    requires Run(s, before).current[cpu] == t && Run(s, before).ready != []
    requires t in Run(s, before).threads && Run(s, before).threads[t].state in {Blocked, Waiting, Terminated}
    requires var u := Schedule(Run(s, before), cpu, context); Possible(u, after) && AddsNew(u, after)
    requires AddThread(t) !in after
    ensures !Member(Run(Schedule(Run(s, before), cpu, context), after), t)
  {
    RunInv(s, before);
    var r := Run(s, before);
    ScheduleInv(r, cpu, context);
    assert Out(r, t);
    hide Inv, Member, Schedule;
    NotRunUntilAdded(Schedule(r, cpu, context), after, t);
  }

  /** The event does not take the thread out of the queue or of service. */
  ghost predicate Spares(e: Event, t: nat) {
    && e != RemoveThread(t) && e != Drop(t)
    && (e.SetState? && e.t == t ==> e.state == Running || e.state == Ready)
  }

  ghost predicate Active(s: Sched, t: nat) {
    t in s.threads && (s.threads[t].state == Running || s.threads[t].state == Ready)
  }

  lemma ApplyKeeps(s: Sched, e: Event, t: nat)
    requires Inv(s) && Enabled(s, e) && (e.AddThread? ==> !Member(s, e.t)) && Spares(e, t)
    requires Active(s, t) && Member(s, t)
    ensures Active(Apply(s, e), t) && Member(Apply(s, e), t)
  {
    match e
    case AddThread(u) => AddInv(s, u);
    case RemoveThread(u) => RemoveInv(s, u);
    case Timer(cpu, context) => ScheduleInv(s, cpu, context);
    case _ =>
  }

  /** No thread is lost: one that stays running or ready, and is not removed, stays queued or current,
      whatever the processors do. */
  lemma {:induction false} ActiveKept(s: Sched, events: seq<Event>, t: nat)
    requires Inv(s) && Possible(s, events) && AddsNew(s, events)
    requires Active(s, t) && Member(s, t) && forall e :: e in events ==> Spares(e, t)
    ensures Member(Run(s, events), t)
    decreases |events|
  {
    if events == [] {
    } else {
      ApplyInv(s, events[0]);
      ApplyKeeps(s, events[0], t);
      assert forall e :: e in events[1..] ==> e in events;
      hide Inv, Apply, Member, Active, Spares;
      ActiveKept(Apply(s, events[0]), events[1..], t);
    }
  }

  // ----- Kernel stacks -----

  /** Every processor that has switched will take its next interrupt on the kernel stack of its thread. */
  ghost predicate StacksFollow(s: Sched) {
    forall c :: c in s.ring0 ==>
      c in s.current && (s.current[c] in s.threads ==> s.ring0[c] == s.threads[s.current[c]].kernelStack)
  }

  lemma ApplyStacks(s: Sched, e: Event)
    requires StacksFollow(s) && Enabled(s, e)
    ensures StacksFollow(Apply(s, e))
    ensures e.Timer? ==> e.cpu in Apply(s, e).ring0
  {
    if e.Spawn? {
      forall c | c in s.current ensures s.current[c] != e.t {
        assert !IsCurrent(s, e.t);
      }
    }
  }

  lemma {:induction false} RunStacks(s: Sched, events: seq<Event>)
    requires StacksFollow(s) && Possible(s, events)
    ensures StacksFollow(Run(s, events))
    decreases |events|
  {
    if events == [] {
    } else {
      ApplyStacks(s, events[0]);
      hide StacksFollow, Apply, Enabled;
      RunStacks(Apply(s, events[0]), events[1..]);
    }
  }

  // ----- Waiting -----

  /** Position in the queue. */
  ghost function Index(q: seq<nat>, t: nat): (i: nat)
    requires t in q
    ensures i < |q| && q[i] == t
  {
    if q[0] == t then 0 else 1 + Index(q[1..], t)
  }

  /** The thread stays queued throughout the run: it is neither dispatched nor removed. */
  ghost predicate Stays(s: Sched, events: seq<Event>, t: nat)
    requires Possible(s, events)
    decreases |events|
  {
    t in s.ready && (events == [] || Stays(Apply(s, events[0]), events[1..], t))
  }

  ghost function Adds(events: seq<Event>): nat {
    if events == [] then 0 else (if events[0].AddThread? then 1 else 0) + Adds(events[1..])
  }

  ghost function Timers(events: seq<Event>): nat {
    if events == [] then 0 else (if events[0].Timer? then 1 else 0) + Timers(events[1..])
  }

  /** Whether the event removes a queued thread ahead of `t`. */
  ghost predicate TakesAhead(s: Sched, e: Event, t: nat)
    requires t in s.ready
  {
    e.RemoveThread? && e.t in s.ready && Index(s.ready, e.t) < Index(s.ready, t)
  }

  ghost function RemovedAhead(s: Sched, events: seq<Event>, t: nat): nat
    requires Possible(s, events) && Stays(s, events, t)
    decreases |events|
  {
    if events == [] then 0
    else (if TakesAhead(s, events[0], t) then 1 else 0) + RemovedAhead(Apply(s, events[0]), events[1..], t)
  }

  lemma IndexUnique(q: seq<nat>, t: nat, i: nat)
    requires NoDuplicates(q) && i < |q| && q[i] == t
    ensures t in q && Index(q, t) == i
  {
    var j := Index(q, t);
    assert !(i < j) && !(j < i);
  }

  lemma {:induction false} IndexWithout(q: seq<nat>, t: nat, u: nat)
    requires NoDuplicates(q) && t in q && u != t
    ensures t in Without(q, u)
    ensures Index(Without(q, u), t) == Index(q, t) - if u in q && Index(q, u) < Index(q, t) then 1 else 0
    decreases |q|
  {
    WithoutFacts(q, u);
    assert forall x :: x in q <==> x == q[0] || x in q[1..];
    assert q[0] !in q[1..] && NoDuplicates(q[1..]);
    if q[0] == t {
    } else {
      IndexWithout(q[1..], t, u);
      WithoutFacts(q[1..], u);
      if q[0] == u {
        WithoutAbsent(q[1..], u);
      } else {
        assert Without(q, u) == [q[0]] + Without(q[1..], u);
        assert Without(q, u)[1..] == Without(q[1..], u);
      }
    }
  }

  lemma {:induction false} WithoutAbsent(q: seq<nat>, u: nat)
    requires u !in q
    ensures Without(q, u) == q
  {
    if q == [] {
    } else {
      WithoutAbsent(q[1..], u);
    }
  }

  /** A switch dispatches a queued thread exactly when it is at the front. */
  lemma DispatchedAtFront(s: Sched, cpu: nat, context: Context, t: nat)
    requires Inv(s) && Enabled(s, Timer(cpu, context)) && t in s.ready
    ensures Index(s.ready, t) == 0 <==> Schedule(s, cpu, context).current[cpu] == t
    ensures Index(s.ready, t) == 0 <==> t !in Schedule(s, cpu, context).ready
  {
    ScheduleInv(s, cpu, context);
    var i := Index(s.ready, t);
    if i > 0 {
      assert Schedule(s, cpu, context).ready[i - 1] == t;
    }
  }

  lemma MovedBack(q: seq<nat>, t: nat, u: nat)
    requires t in q && u != t
    ensures Index([u] + q, t) == Index(q, t) + 1
  {
    assert ([u] + q)[1..] == q;
  }

  lemma MovedUp(q: seq<nat>, t: nat, more: seq<nat>)
    requires t in q && Index(q, t) > 0 && NoDuplicates(q[1..] + more)
    ensures Index(q[1..] + more, t) == Index(q, t) - 1
  {
    IndexUnique(q[1..] + more, t, Index(q, t) - 1);
  }

  /** How one event moves a waiting thread: an addition pushes it back by one, since new threads go to
      the front; a switch on any processor, or a removal ahead of it, brings it forward by one. */
  lemma WaitingStep(s: Sched, e: Event, t: nat)
    requires Inv(s) && Enabled(s, e) && (e.AddThread? ==> !Member(s, e.t))
    requires t in s.ready && t in Apply(s, e).ready
    ensures Index(Apply(s, e).ready, t) + (if e.Timer? then 1 else 0) + (if TakesAhead(s, e, t) then 1 else 0)
      == Index(s.ready, t) + if e.AddThread? then 1 else 0
  {
    ApplyInv(s, e);
    match e
    case AddThread(u) => MovedBack(s.ready, t, u);
    case RemoveThread(u) =>
      WithoutFacts(s.ready, u);
      IndexWithout(s.ready, t, u);
    case Timer(cpu, context) =>
      DispatchedAtFront(s, cpu, context, t);
      MovedUp(s.ready, t, if Requeues(s, s.current[cpu]) then [s.current[cpu]] else []);
    case _ =>
  }

  /** While it waits, a thread's position is its first one plus the additions, minus the switches on
      all processors, minus the removals ahead of it.  So it is dispatched at the latest when the
      switches exceed the rest: threads that are requeued cannot overtake it. */
  lemma {:induction false} WaitingLaw(s: Sched, events: seq<Event>, t: nat)
    requires Inv(s) && Possible(s, events) && AddsNew(s, events) && Stays(s, events, t)
    ensures t in Run(s, events).ready
    ensures Index(Run(s, events).ready, t) + Timers(events) + RemovedAhead(s, events, t)
      == Index(s.ready, t) + Adds(events)
    decreases |events|
  {
    if events == [] {
    } else {
      WaitingStep(s, events[0], t);
      ApplyInv(s, events[0]);
      hide Apply, Enabled, Inv;
      WaitingLaw(Apply(s, events[0]), events[1..], t);
    }
  }

  /** So a thread that waits through a run is dispatched by the next switch, on whichever processor,
      exactly when the switches and the removals ahead have used up its position and the additions. */
  lemma DispatchedAfter(s: Sched, events: seq<Event>, t: nat, cpu: nat, context: Context)
    requires Inv(s) && Possible(s, events) && AddsNew(s, events) && Stays(s, events, t)
    requires Enabled(Run(s, events), Timer(cpu, context))
    ensures Schedule(Run(s, events), cpu, context).current[cpu] == t
      <==> Timers(events) + RemovedAhead(s, events, t) == Index(s.ready, t) + Adds(events)
  {
    WaitingLaw(s, events, t);
    RunInv(s, events);
    DispatchedAtFront(Run(s, events), cpu, context, t);
  }

  // ----- Additions can hold a thread back for ever -----

  /** A new thread is created, added and dispatched at once. */
  ghost function Round(cpu: nat, id: nat, context: Context): seq<Event> {
    [Spawn(id, Thread(Ready, context, 0)), AddThread(id), Timer(cpu, context)]
  }

  ghost function Arrivals(cpu: nat, id: nat, context: Context, n: nat): seq<Event>
    decreases n
  {
    if n == 0 then [] else Round(cpu, id, context) + Arrivals(cpu, id + 1, context, n - 1)
  }

  /** Thread numbers from `id` on are unused. */
  ghost predicate Unused(s: Sched, id: nat) {
    forall t :: t >= id ==> t !in s.threads && !Member(s, t)
  }

  /** `events` can happen without dispatching `t`. */
  ghost predicate Waits(s: Sched, events: seq<Event>, t: nat) {
    Possible(s, events) && AddsNew(s, events) && Stays(s, events, t)
  }

  lemma WaitsNext(s: Sched, e: Event, rest: seq<Event>, t: nat)
    requires Enabled(s, e) && (e.AddThread? ==> !Member(s, e.t)) && t in s.ready && Waits(Apply(s, e), rest, t)
    ensures Waits(s, [e] + rest, t)
  {
    hide Apply, Enabled;
    assert ([e] + rest)[1..] == rest;
  }

  lemma SpawnStep(s: Sched, id: nat, context: Context, t: nat)
    requires Inv(s) && Unused(s, id) && t in s.ready
    ensures Enabled(s, Spawn(id, Thread(Ready, context, 0)))
    ensures var s1 := Apply(s, Spawn(id, Thread(Ready, context, 0)));
      && Inv(s1) && !Member(s1, id) && id in s1.threads && Unused(s1, id + 1)
      && s1.ready == s.ready && s1.current == s.current
  {
    var s1 := Apply(s, Spawn(id, Thread(Ready, context, 0)));
    assert forall u :: Member(s1, u) <==> Member(s, u) by {
      assert s1.ready == s.ready && s1.current == s.current;
    }
  }

  lemma AddStep(s: Sched, id: nat, t: nat)
    requires Inv(s) && !Member(s, id) && id in s.threads && Unused(s, id + 1) && t in s.ready
    ensures var s2 := Apply(s, AddThread(id));
      && Inv(s2) && Unused(s2, id + 1) && id in s2.threads && s2.ready == [id] + s.ready && s2.current == s.current
  {
    AddInv(s, id);
  }

  lemma DispatchStep(s: Sched, cpu: nat, id: nat, context: Context, t: nat, queue: seq<nat>)
    requires Inv(s) && Unused(s, id + 1) && id in s.threads && s.ready == [id] + queue && t in queue && cpu in s.current
    ensures Enabled(s, Timer(cpu, context))
    ensures var s3 := Apply(s, Timer(cpu, context));
      && Inv(s3) && Unused(s3, id + 1) && cpu in s3.current && t in s3.ready && Index(s3.ready, t) == Index(queue, t)
  {
    var i := Index(queue, t);
    var s3 := Apply(s, Timer(cpu, context));
    ScheduleInv(s, cpu, context);
    assert s3.ready[i] == t;
    IndexUnique(s3.ready, t, i);
    assert forall u :: u in s3.threads <==> u in s.threads;
  }

  /** A round leaves the waiting thread where it was. */
  lemma OneRound(s: Sched, cpu: nat, id: nat, context: Context, t: nat, rest: seq<Event>) returns (s': Sched)
    requires Inv(s) && Unused(s, id) && cpu in s.current && t in s.ready
    ensures Inv(s') && Unused(s', id + 1) && cpu in s'.current && t in s'.ready
    ensures Index(s'.ready, t) == Index(s.ready, t)
    ensures Waits(s', rest, t) ==> Waits(s, Round(cpu, id, context) + rest, t)
  {
    var e1, e2, e3 := Spawn(id, Thread(Ready, context, 0)), AddThread(id), Timer(cpu, context);
    SpawnStep(s, id, context, t);
    var s1 := Apply(s, e1);
    AddStep(s1, id, t);
    var s2 := Apply(s1, e2);
    DispatchStep(s2, cpu, id, context, t, s.ready);
    s' := Apply(s2, e3);
    hide Apply, Enabled, Waits, Inv, Unused, Member;
    if Waits(s', rest, t) {
      WaitsNext(s2, e3, rest, t);
      WaitsNext(s1, e2, [e3] + rest, t);
      WaitsNext(s, e1, [e2] + ([e3] + rest), t);
      assert Round(cpu, id, context) + rest == [e1] + ([e2] + ([e3] + rest));
    }
  }

  lemma RoundTimers(cpu: nat, id: nat, context: Context, rest: seq<Event>)
    ensures Timers(Round(cpu, id, context) + rest) == Timers(rest) + 1
  {
    var events := Round(cpu, id, context) + rest;
    assert events[1..][1..][1..] == rest;
    assert Timers(events) == Timers(events[1..]) == Timers(events[1..][1..]) == 1 + Timers(rest);
  }

  /** However often the processors switch, a thread can stay at its position in the queue, because
      additions go to the front: waiting is bounded only through the number of additions. */
  lemma {:induction false} Starvation(s: Sched, cpu: nat, id: nat, context: Context, t: nat, n: nat)
    requires Inv(s) && Unused(s, id) && cpu in s.current && t in s.ready
    ensures var events := Arrivals(cpu, id, context, n); Waits(s, events, t) && Timers(events) == n
    decreases n
  {
    if n == 0 {
    } else {
      hide Inv, Unused, Waits, Timers, Round, Index;
      var rest := Arrivals(cpu, id + 1, context, n - 1);
      var s' := OneRound(s, cpu, id, context, t, rest);
      Starvation(s', cpu, id + 1, context, t, n - 1);
      RoundTimers(cpu, id, context, rest);
    }
  }
}
