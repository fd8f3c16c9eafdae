/** The ready queue shared by all processors, and what holds over every run of it. */
module Scheduling {
  import opened Collections
  import opened ContextSwitch

  datatype ThreadState = Running | Ready | Blocked | Waiting | Terminated

  predicate IsActive(s: ThreadState) {
    s.Running? || s.Ready?
  }

  datatype Thread = Thread(state: ThreadState, context: Context, kernelStack: int)

  /** The scheduler's fields, the threads that still exist, and the kernel stack each processor switches
      to on an interrupt; a weak reference to a thread upgrades exactly when the thread is in `threads`. */
  datatype Sched = Sched(current: map<nat, nat>, ready: seq<nat>, threads: map<nat, Thread>, ring0: map<nat, int>)

  // ----- The operations on states -----

  function Add(s: Sched, t: nat): Sched {
    s.(ready := [t] + s.ready)
  }

  function Without(q: seq<nat>, t: nat): seq<nat> {
    if q == [] then [] else if q[0] == t then Without(q[1..], t) else [q[0]] + Without(q[1..], t)
  }

  function Remove(s: Sched, t: nat): Sched {
    s.(ready := Without(s.ready, t))
  }

  /** The interrupted thread's context is stored, if it still exists. */
  function Store(threads: map<nat, Thread>, t: nat, context: Context): map<nat, Thread> {
    if t in threads then threads[t := threads[t].(context := context)] else threads
  }

  /** The interrupted thread goes back to the queue if it exists and is active. */
  predicate Requeues(s: Sched, t: nat) {
    t in s.threads && IsActive(s.threads[t].state)
  }

  /** The thread that a switch on `cpu` makes current. */
  function Next(s: Sched, cpu: nat): nat
    requires cpu in s.current
  {
    if s.ready == [] then s.current[cpu] else s.ready[0]
  }

  function Schedule(s: Sched, cpu: nat, context: Context): Sched
    requires cpu in s.current
  {
    var last, next := s.current[cpu], Next(s, cpu);
    Sched(s.current[cpu := next],
          if s.ready == [] then [] else s.ready[1..] + if Requeues(s, last) then [last] else [],
          Store(s.threads, last, context),
          if next in s.threads then s.ring0[cpu := s.threads[next].kernelStack] else s.ring0)
  }

  // ----- The scheduler object -----

  class Scheduler {
    var currentThreads: map<nat, nat>
    var readyThreads: seq<nat>
    var threads: map<nat, Thread>
    var ring0: map<nat, int>

    ghost function View(): Sched
      reads this
    {
      Sched(currentThreads, readyThreads, threads, ring0)
    }

    method AddThread(t: nat)
      modifies this
      ensures View() == Add(old(View()), t)
    {
      readyThreads := [t] + readyThreads;
    }

    /** `retain` over the queue; upgrading a dead reference panics, hence the precondition. */
    method RemoveThread(t: nat)
      requires forall q :: q in readyThreads ==> q in threads
      requires readyThreads != [] ==> t in threads
      modifies this
      ensures View() == Remove(old(View()), t)
    {
      var kept: seq<nat>, i := [], 0;
      while i < |readyThreads|
        invariant 0 <= i <= |readyThreads| && View() == old(View())
        invariant Without(readyThreads, t) == kept + Without(readyThreads[i..], t)
      {
        assert readyThreads[i..][1..] == readyThreads[i + 1..];
        if readyThreads[i] != t {
          kept := kept + [readyThreads[i]];
        }
        i := i + 1;
      }
      readyThreads := kept;
    }

    /** `schedule`: the result is the context that will be loaded. */
    method DoSchedule(cpu: nat, context: Context) returns (next: Context)
      requires cpu in currentThreads
      requires Next(View(), cpu) in threads
      modifies this
      ensures View() == Schedule(old(View()), cpu, context)
      ensures currentThreads[cpu] in threads && next == threads[currentThreads[cpu]].context
    {
      var last := currentThreads[cpu];
      var alive := last in threads;
      if alive {
        threads := threads[last := threads[last].(context := context)];
      }
      if readyThreads != [] {
        var first := readyThreads[0];
        readyThreads := readyThreads[1..];
        currentThreads := currentThreads[cpu := first];
        if alive && IsActive(threads[last].state) {
          readyThreads := readyThreads + [last];
        }
      }
      ring0 := ring0[cpu := threads[currentThreads[cpu]].kernelStack];
      next := threads[currentThreads[cpu]].context;
    }
  }

  // ----- Invariant -----

  /** No thread is queued twice, current on two processors, or both queued and current. */
  ghost predicate Inv(s: Sched) {
    && NoDuplicates(s.ready)
    && (forall c, d :: c in s.current && d in s.current && c != d ==> s.current[c] != s.current[d])
    && (forall c :: c in s.current ==> s.current[c] !in s.ready)
  }

  ghost predicate IsCurrent(s: Sched, t: nat) {
    exists c :: c in s.current && s.current[c] == t
  }

  /** The thread is queued or current. */
  ghost predicate Member(s: Sched, t: nat) {
    t in s.ready || IsCurrent(s, t)
  }

  /** Adding a thread is safe exactly when it is neither queued nor current. */
  lemma AddInv(s: Sched, t: nat)
    requires Inv(s)
    ensures Inv(Add(s, t)) <==> !Member(s, t)
    ensures forall u :: Member(Add(s, t), u) <==> Member(s, u) || u == t
  {
    var q := Add(s, t).ready;
    assert q[0] == t;
    assert forall i :: 1 <= i < |q| ==> q[i] == s.ready[i - 1];
    assert forall u :: u in q <==> u == t || u in s.ready;
    if t in s.ready {
      var i :| 0 <= i < |s.ready| && s.ready[i] == t;
      assert q[0] == q[i + 1];
    }
  }

  lemma {:induction false} WithoutFacts(q: seq<nat>, t: nat)
    ensures forall u :: u in Without(q, t) <==> u in q && u != t
    ensures NoDuplicates(q) ==> NoDuplicates(Without(q, t))
  {
    if q == [] {
    } else {
      WithoutFacts(q[1..], t);
      var w := Without(q[1..], t);
      assert forall u :: u in q <==> u == q[0] || u in q[1..];
      if NoDuplicates(q) {
        assert NoDuplicates(q[1..]);
        assert q[0] !in q[1..];
        if q[0] != t {
          var r := Without(q, t);
          assert r == [q[0]] + w;
          forall i, j | 0 <= i < j < |r| ensures r[i] != r[j] {
            assert r[j] == w[j - 1];
            assert w[j - 1] in q[1..];
          }
        }
      }
    }
  }

  lemma RemoveInv(s: Sched, t: nat)
    requires Inv(s)
    ensures Inv(Remove(s, t))
    ensures forall u :: Member(Remove(s, t), u) <==> (u in s.ready && u != t) || IsCurrent(s, u)
  {
    WithoutFacts(s.ready, t);
  }

  /** Current on a processor other than `cpu`. */
  ghost predicate OnOther(s: Sched, cpu: nat, t: nat) {
    exists c :: c in s.current && c != cpu && s.current[c] == t
  }

  lemma CurrentSplit(s: Sched, cpu: nat, u: nat)
    requires cpu in s.current
    ensures IsCurrent(s, u) <==> u == s.current[cpu] || OnOther(s, cpu, u)
  {
  }

  lemma SwitchSplit(s: Sched, t: Sched, cpu: nat, u: nat)
    requires cpu in s.current && cpu in t.current && t.current == s.current[cpu := t.current[cpu]]
    ensures OnOther(t, cpu, u) <==> OnOther(s, cpu, u)
  {
    if OnOther(s, cpu, u) {
      var c :| c in s.current && c != cpu && s.current[c] == u;
      assert c in t.current && t.current[c] == u;
    }
    if OnOther(t, cpu, u) {
      var c :| c in t.current && c != cpu && t.current[c] == u;
      assert c in s.current && s.current[c] == u;
    }
  }

  /** The thread no longer exists, or is blocked, waiting or terminated. */
  ghost predicate Out(s: Sched, t: nat) {
    t !in s.threads || s.threads[t].state in {Blocked, Waiting, Terminated}
  }

  /** A switch with a thread waiting puts the thread switched away from at the end of the queue if it is
      running or ready, and nowhere if it is gone, blocked, waiting or terminated. */
  lemma SwitchedAway(s: Sched, cpu: nat, context: Context)
    requires Inv(s) && cpu in s.current && s.ready != []
    ensures var t, last := Schedule(s, cpu, context), s.current[cpu];
      && t.current[cpu] == s.ready[0] != last
      && (last in t.ready <==>
            last in s.threads && (s.threads[last].state == Running || s.threads[last].state == Ready))
      && (last in t.ready ==> t.ready == s.ready[1..] + [last])
      && (last !in t.ready ==> t.ready == s.ready[1..])
  {
    var last := s.current[cpu];
    assert last !in s.ready;
    assert forall u :: u in s.ready[1..] ==> u in s.ready;
    assert s.ready[0] in s.ready;
  }

  /** A switch keeps the invariant, and the population loses exactly the thread switched away from
      when it is dead, blocked, waiting or terminated. */
  lemma ScheduleInv(s: Sched, cpu: nat, context: Context)
    requires Inv(s) && cpu in s.current
    ensures Inv(Schedule(s, cpu, context))
    ensures forall u :: Member(Schedule(s, cpu, context), u) <==>
      (Member(s, u) && !(u == s.current[cpu] && s.ready != [] && Out(s, u)))
  {
    assert forall u :: Out(s, u) <==> !Requeues(s, u);
    var t, last := Schedule(s, cpu, context), s.current[cpu];
    if s.ready != [] {
      assert forall u :: u in s.ready <==> u == s.ready[0] || u in s.ready[1..];
      assert s.ready[0] !in s.ready[1..];
      forall u ensures Member(t, u) <==> (Member(s, u) && !(u == last && Out(s, u))) {
        CurrentSplit(s, cpu, u);
        CurrentSplit(t, cpu, u);
        SwitchSplit(s, t, cpu, u);
      }
    } else {
      assert t.current == s.current && t.ready == s.ready;
    }
  }
}
