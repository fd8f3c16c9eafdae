/** Registers across whole runs: the save and restore code of the timer interrupt, put together with
    the scheduler and one memory, on any number of processors. */
module SwitchRuns {
  import opened ContextSwitch
  import opened Scheduling
  import Runs = SchedulerRuns

  /** The scheduler, the registers of every processor, memory, and where in memory the `Context` of each
      thread lies. */
  datatype World = World(sched: Sched, regs: map<nat, Context>, mem: Memory, at: map<nat, int>)

  datatype Event =
    | Compute(cpu: nat, regs: Context, mem: Memory)              // the running thread executes
    | Kernel(event: Runs.Event)                                  // a scheduler event other than the next two
    | Create(t: nat, thread: Thread, address: int)               // a new thread object
    // the timer interrupt, taken on the stack at `top`; the handler leaves the registers as `clobbered`
    // and memory as `after`
    | Interrupt(cpu: nat, top: int, clobbered: Context, after: Memory)

  // ----- Memory -----

  /** No `Context` of a thread differs between the memories. */
  ghost predicate KeepsContexts(w: World, before: Memory, after: Memory) {
    forall t :: t in w.sched.threads && t in w.at ==> ContextAt(after, w.at[t]) == ContextAt(before, w.at[t])
  }

  /** The range at `a` overlaps the `Context` of no thread. */
  ghost predicate Clear(w: World, a: int) {
    forall t :: t in w.sched.threads && t in w.at ==> Apart(a, w.at[t])
  }

  /** The context the handler finds at its argument. */
  ghost function Found(w: World, e: Event): Context
    requires e.Interrupt? && e.cpu in w.regs
  {
    var saved := Saved(w.regs[e.cpu], e.top, w.mem);
    ContextAt(saved.mem, saved.sp)
  }

  /** Memory once the handler has stored that context in the interrupted thread. */
  ghost function StoredMemory(w: World, e: Event): Memory
    requires e.Interrupt? && e.cpu in w.regs && e.cpu in w.sched.current
  {
    var last, mem := w.sched.current[e.cpu], Saved(w.regs[e.cpu], e.top, w.mem).mem;
    if last in w.sched.threads && last in w.at then WriteWords(mem, w.at[last], Found(w, e)) else mem
  }

  /** The stack image overlaps no `Context`, and beside its store the handler changes none. */
  ghost predicate Interruptible(w: World, e: Event)
    requires e.Interrupt?
  {
    && e.cpu in w.regs && e.cpu in w.sched.current && Next(w.sched, e.cpu) in w.sched.threads
    && Next(w.sched, e.cpu) in w.at && Clear(w, e.top - WORD * FIELDS) && KeepsContexts(w, StoredMemory(w, e), e.after)
  }

  ghost predicate Enabled(w: World, e: Event) {
    match e
    case Compute(cpu, regs, mem) => cpu in w.regs && KeepsContexts(w, w.mem, mem)
    case Kernel(event) => !event.Timer? && !event.Spawn? && Runs.Enabled(w.sched, event)
    case Create(t, thread, address) => Runs.Enabled(w.sched, Runs.Spawn(t, thread)) && Clear(w, address)
    case Interrupt(cpu, top, clobbered, after) => Interruptible(w, e)
  }

  ghost function Apply(w: World, e: Event): World
    requires Enabled(w, e)
  {
    match e
    case Compute(cpu, regs, mem) => w.(regs := w.regs[cpu := regs], mem := mem)
    case Kernel(event) => w.(sched := Runs.Apply(w.sched, event))
    case Create(t, thread, address) =>
      World(Runs.Apply(w.sched, Runs.Spawn(t, thread)), w.regs, WriteWords(w.mem, address, thread.context),
            w.at[t := address])
    case Interrupt(cpu, top, clobbered, after) =>
      var address := w.at[Next(w.sched, cpu)];
      World(Schedule(w.sched, cpu, Found(w, e)), w.regs[cpu := Restored(clobbered, address, after)], after, w.at)
  }

  ghost predicate Possible(w: World, events: seq<Event>)
    decreases |events|
  {
    events == [] || (Enabled(w, events[0]) && Possible(Apply(w, events[0]), events[1..]))
  }

  ghost function Run(w: World, events: seq<Event>): World
    requires Possible(w, events)
    decreases |events|
  {
    if events == [] then w else Run(Apply(w, events[0]), events[1..])
  }

  // ----- Every thread's context is in memory -----

  /** The memory of every thread's `Context` holds it, and the structures do not overlap. */
  ghost predicate InMemory(w: World) {
    && (forall t :: t in w.sched.threads ==> t in w.at && ContextAt(w.mem, w.at[t]) == w.sched.threads[t].context)
    && (forall t, u :: t in w.sched.threads && u in w.sched.threads && t in w.at && u in w.at && t != u ==>
          Apart(w.at[t], w.at[u]))
  }

  lemma FoundExact(w: World, e: Event)
    requires e.Interrupt? && e.cpu in w.regs
    ensures Found(w, e) == w.regs[e.cpu]
  {
    SavedContext(w.regs[e.cpu], e.top, w.mem);
  }

  /** After the handler's store, each thread's structure holds its context: the interrupted thread's the
      registers it had, the others' what they held. */
  lemma StoredExact(w: World, e: Event, t: nat)
    requires InMemory(w) && e.Interrupt? && Interruptible(w, e) && t in w.sched.threads
    ensures t in w.at
    ensures ContextAt(StoredMemory(w, e), w.at[t])
      == if t == w.sched.current[e.cpu] then w.regs[e.cpu] else w.sched.threads[t].context
  {
    hide Found, Saved, ContextAt, WriteWords, Apart, KeepsContexts;
    FoundExact(w, e);
    var last, saved := w.sched.current[e.cpu], Saved(w.regs[e.cpu], e.top, w.mem).mem;
    SavedKeeps(w.regs[e.cpu], e.top, w.mem, w.at[t]);
    if last in w.sched.threads {
      ContextWritten(saved, w.at[last], w.regs[e.cpu], w.at[t]);
    }
  }

  /** What the scheduler makes of the threads' contexts. */
  lemma SwitchedContext(w: World, e: Event, t: nat)
    requires e.Interrupt? && Interruptible(w, e) && t in Apply(w, e).sched.threads
    ensures t in w.sched.threads
    ensures Apply(w, e).sched.threads[t].context
      == if t == w.sched.current[e.cpu] then w.regs[e.cpu] else w.sched.threads[t].context
  {
    hide Found, Restored, KeepsContexts, Clear, StoredMemory;
    FoundExact(w, e);
  }

  lemma InterruptKeeps(w: World, e: Event, t: nat)
    requires InMemory(w) && e.Interrupt? && Interruptible(w, e) && t in Apply(w, e).sched.threads
    ensures t in w.sched.threads && t in w.at
    ensures ContextAt(e.after, w.at[t]) == Apply(w, e).sched.threads[t].context
  {
    hide Found, ContextAt, StoredMemory, Restored, InMemory, Clear, Apply;
    SwitchedContext(w, e, t);
    StoredExact(w, e, t);
  }

  lemma InterruptFrame(w: World, e: Event)
    requires e.Interrupt? && Interruptible(w, e)
    ensures Apply(w, e).at == w.at && Apply(w, e).mem == e.after
  {
    hide Found, ContextAt, StoredMemory, Restored, Clear, KeepsContexts, Schedule;
  }

  lemma InterruptInMemory(w: World, e: Event)
    requires InMemory(w) && e.Interrupt? && Interruptible(w, e)
    ensures InMemory(Apply(w, e))
  {
    hide Apply, Interruptible, ContextAt, Apart;
    var n := Apply(w, e);
    InterruptFrame(w, e);
    forall t | t in n.sched.threads
      ensures t in w.sched.threads && t in n.at && ContextAt(n.mem, n.at[t]) == n.sched.threads[t].context
    {
      InterruptKeeps(w, e, t);
    }
  }

  lemma CreateInMemory(w: World, e: Event)
    requires InMemory(w) && e.Create? && Enabled(w, e)
    ensures InMemory(Apply(w, e))
  {
    hide ContextAt, WriteWords;
    var n := Apply(w, e);
    ContextWritten(w.mem, e.address, e.thread.context, e.address);
    forall t | t in n.sched.threads
      ensures t in n.at && ContextAt(n.mem, n.at[t]) == n.sched.threads[t].context
    {
      if t != e.t {
        ContextWritten(w.mem, e.address, e.thread.context, w.at[t]);
      }
    }
  }

  lemma StepInMemory(w: World, e: Event)
    requires InMemory(w) && Enabled(w, e)
    ensures InMemory(Apply(w, e))
  {
    match e
    case Interrupt(_, _, _, _) => InterruptInMemory(w, e);
    case Create(_, _, _) => CreateInMemory(w, e);
    case Compute(_, _, _) => ComputeInMemory(w, e);
    case Kernel(_) => KernelInMemory(w, e);
  }

  lemma ComputeInMemory(w: World, e: Event)
    requires InMemory(w) && e.Compute? && Enabled(w, e)
    ensures InMemory(Apply(w, e))
  {
    hide ContextAt, Apart;
  }

  lemma KernelContexts(s: Sched, e: Runs.Event)
    requires Runs.Enabled(s, e) && !e.Timer? && !e.Spawn?
    ensures forall t :: t in Runs.Apply(s, e).threads ==>
      t in s.threads && Runs.Apply(s, e).threads[t].context == s.threads[t].context
  {
  }

  /** Other scheduler events change no context. */
  lemma KernelInMemory(w: World, e: Event)
    requires InMemory(w) && e.Kernel? && Enabled(w, e)
    ensures InMemory(Apply(w, e))
  {
    hide Add, Remove, Schedule, Found, StoredMemory, Restored;
    var n := Apply(w, e);
    assert n.at == w.at && n.mem == w.mem;
    KernelContexts(w.sched, e.event);
    assert n.sched == Runs.Apply(w.sched, e.event);
    hide Runs.Apply, Apply, Enabled, ContextAt, Apart;
  }

  // ----- History -----

  /** A thread got these registers: it was created with them or interrupted with them. */
  datatype Entry = Entry(t: nat, regs: Context)

  ghost function Entries(w: World, e: Event): seq<Entry>
    requires Enabled(w, e)
  {
    match e
    case Compute(cpu, regs, mem) => []
    case Kernel(event) => []
    case Create(t, thread, address) => [Entry(t, thread.context)]
    case Interrupt(cpu, top, clobbered, after) => [Entry(w.sched.current[cpu], w.regs[cpu])]
  }

  ghost function History(w: World, events: seq<Event>): seq<Entry>
    requires Possible(w, events)
    decreases |events|
  {
    if events == [] then [] else Entries(w, events[0]) + History(Apply(w, events[0]), events[1..])
  }

  /** `regs` is the latest entry of the thread. */
  ghost predicate Latest(h: seq<Entry>, t: nat, regs: Context) {
    exists i :: 0 <= i < |h| && h[i] == Entry(t, regs) && forall j :: i < j < |h| ==> h[j].t != t
  }

  /** Every thread's saved context is its latest entry. */
  ghost predicate Logged(threads: map<nat, Thread>, h: seq<Entry>) {
    forall t :: t in threads ==> Latest(h, t, threads[t].context)
  }

  lemma LatestAppend(h: seq<Entry>, e: Entry, t: nat, regs: Context)
    requires if e.t == t then regs == e.regs else Latest(h, t, regs)
    ensures Latest(h + [e], t, regs)
  {
    var g := h + [e];
    if e.t == t {
      assert g[|h|] == Entry(t, regs);
    } else {
      var i :| 0 <= i < |h| && h[i] == Entry(t, regs) && forall j :: i < j < |h| ==> h[j].t != t;
      assert g[i] == h[i];
    }
  }

  /** One more entry is right when the thread it names now has that context, and no other changed. */
  lemma OneLogged(before: map<nat, Thread>, h: seq<Entry>, e: Entry, now: map<nat, Thread>)
    requires Logged(before, h)
    requires forall t :: t in now ==>
      if t == e.t then now[t].context == e.regs else t in before && now[t].context == before[t].context
    ensures Logged(now, h + [e])
  {
    forall t | t in now ensures Latest(h + [e], t, now[t].context) {
      hide Latest;
      LatestAppend(h, e, t, now[t].context);
    }
  }

  lemma StepLogged(w: World, h: seq<Entry>, e: Event)
    requires Enabled(w, e) && Logged(w.sched.threads, h)
    ensures Logged(Apply(w, e).sched.threads, h + Entries(w, e))
  {
    hide Latest, Found, Restored, ContextAt, Saved, StoredMemory, KeepsContexts, WriteWords, Clear;
    var threads := Apply(w, e).sched.threads;
    if e.Interrupt? {
      FoundExact(w, e);
      OneLogged(w.sched.threads, h, Entry(w.sched.current[e.cpu], w.regs[e.cpu]), threads);
    } else if e.Create? {
      OneLogged(w.sched.threads, h, Entry(e.t, e.thread.context), threads);
    } else {
      assert h + Entries(w, e) == h;
    }
  }

  /** On every run, every thread's context is its latest registers and lies in its place in memory. */
  lemma {:induction false} RunLogged(w: World, h: seq<Entry>, events: seq<Event>)
    requires Possible(w, events) && Logged(w.sched.threads, h) && InMemory(w)
    ensures Logged(Run(w, events).sched.threads, h + History(w, events)) && InMemory(Run(w, events))
    decreases |events|
  {
    if events == [] {
      assert h + History(w, events) == h;
    } else {
      StepLogged(w, h, events[0]);
      StepInMemory(w, events[0]);
      var h', w' := h + Entries(w, events[0]), Apply(w, events[0]);
      hide Apply, Enabled, Entries, Logged, InMemory;
      RunLogged(w', h', events[1..]);
      assert h' + History(w', events[1..]) == h + History(w, events);
    }
  }

  /** After any run, a switch resumes a thread with exactly the registers, `cr3` included, that it had
      when it was last interrupted, on whichever processor that was, or was created with; on the other
      processors nothing changes. */
  lemma ResumedExactly(w: World, h: seq<Entry>, events: seq<Event>, e: Event)
    requires Possible(w, events) && Logged(w.sched.threads, h) && InMemory(w)
    requires e.Interrupt? && Enabled(Run(w, events), e)
    ensures var before := Run(w, events);
      var after := Apply(before, e);
      && Latest(h + History(w, events) + Entries(before, e), after.sched.current[e.cpu], after.regs[e.cpu])
      && forall c :: c in before.regs && c != e.cpu ==> c in after.regs && after.regs[c] == before.regs[c]
  {
    hide Latest, Restored, ContextAt, Found, Saved, StoredMemory, KeepsContexts, Apart, Clear;
    var before := Run(w, events);
    RunLogged(w, h, events);
    var h' := h + History(w, events);
    StepLogged(before, h', e);
    StepInMemory(before, e);
    var after := Apply(before, e);
    var t := after.sched.current[e.cpu];
    RestoredContext(e.clobbered, before.at[t], e.after);
    assert t in after.sched.threads && after.regs[e.cpu] == after.sched.threads[t].context;
  }
}
