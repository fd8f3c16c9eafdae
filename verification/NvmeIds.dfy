/** Command identifiers on whole runs of any number of queue pairs. */
module NvmeIds {
  import opened Collections
  import opened NvmeTypes
  import opened NvmeSystem
  import SQ = SubmissionRing
  import CQ = CompletionRing

  /** The command the host submits carries its queue's number and the tail, as `submit_io` builds it. */
  ghost predicate OwnEvent(s: System, id: nat, e: Event) {
    e.SubmitEvent? ==> s.sq.tail < SQ.ID_SLOTS && e.c.cId == SQ.CommandId(id, s.sq.tail)
  }

  ghost predicate OwnRun(s: System, waiting: bool, id: nat, events: seq<Event>)
    requires Inv(s, waiting)
    decreases |events|
  {
    if events == [] then true
    else
      StepInv(s, waiting, events[0]);
      var (t, w) := Step(s, waiting, events[0]);
      OwnEvent(s, id, events[0]) && OwnRun(t, w, id, events[1..])
  }

  /** Only a submission changes what was submitted. */
  lemma StepSubmits(s: System, waiting: bool, e: Event)
    requires Inv(s, waiting)
    ensures var t := Step(s, waiting, e).0;
      && |t.sq.slots| == |s.sq.slots|
      && (t.sq.submitted == s.sq.submitted || (e.SubmitEvent? && t.sq == SQ.SubmitChecked(s.sq, e.c)))
  {
  }

  lemma StepOwnIds(s: System, waiting: bool, id: nat, e: Event)
    requires Inv(s, waiting) && SQ.OwnIds(s.sq, id) && OwnEvent(s, id, e)
    ensures SQ.OwnIds(Step(s, waiting, e).0.sq, id)
  {
    StepSubmits(s, waiting, e);
    hide Step;
    if e.SubmitEvent? {
      SQ.SubmitOwnIds(s.sq, e.c, id);
    }
  }

  lemma {:induction false} RunOwnIds(s: System, waiting: bool, id: nat, events: seq<Event>)
    requires Inv(s, waiting) && SQ.OwnIds(s.sq, id) && OwnRun(s, waiting, id, events)
    ensures SQ.OwnIds(Run(s, waiting, events).0.sq, id)
    decreases |events|
  {
    if events == [] {
    } else {
      StepInv(s, waiting, events[0]);
      StepOwnIds(s, waiting, id, events[0]);
      var (t, w) := Step(s, waiting, events[0]);
      hide Step, Inv, SQ.OwnIds;
      RunOwnIds(t, w, id, events[1..]);
    }
  }

  /** A queue pair: its number and memory, and a run of it since it was created. */
  datatype Pair = Pair(id: nat, sqSlots: seq<Command>, cqSlots: seq<Completion>, mem: seq<byte>, disk: seq<byte>,
                       events: seq<Event>)

  ghost predicate ValidPair(p: Pair) {
    && p.id < SQ.ID_QUEUES && 2 <= |p.sqSlots| <= QUEUE_LENGTH && 2 <= |p.cqSlots| && CQ.PhasesClear(p.cqSlots)
    && (FreshInv(p.sqSlots, p.cqSlots, p.mem, p.disk);
        OwnRun(Fresh(p.sqSlots, p.cqSlots, p.mem, p.disk), false, p.id, p.events))
  }

  ghost function Now(p: Pair): System
    requires ValidPair(p)
  {
    RunFresh(p.sqSlots, p.cqSlots, p.mem, p.disk, p.events)
  }

  lemma PairOwns(p: Pair)
    requires ValidPair(p)
    ensures SQ.Inv(Now(p).sq) && SQ.OwnIds(Now(p).sq, p.id)
  {
    var s := Fresh(p.sqSlots, p.cqSlots, p.mem, p.disk);
    FreshInv(p.sqSlots, p.cqSlots, p.mem, p.disk);
    RunOwnIds(s, false, p.id, p.events);
  }

  /** Whatever each pair and its controller have done, over all pairs with different numbers below 32 the
      commands between head and tail have pairwise different identifiers. */
  lemma PairIdsDiffer(p: Pair, i: nat, q: Pair, j: nat)
    requires ValidPair(p) && ValidPair(q) && (p.id == q.id ==> p == q)
    requires Now(p).sq.known <= i < |Now(p).sq.submitted| && Now(q).sq.known <= j < |Now(q).sq.submitted|
    ensures Now(p).sq.submitted[i].cId == Now(q).sq.submitted[j].cId <==> p == q && i == j
  {
    PairOwns(p);
    PairOwns(q);
    hide ValidPair, Now;
    SQ.InFlightIdsDiffer(Now(p).sq, p.id, i, Now(q).sq, q.id, j);
  }
}
