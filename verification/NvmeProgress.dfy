/** When a wait for completions can end, and a controller under which it does. */
module NvmeProgress {
  import opened Collections
  import opened NvmeSystem
  import SQ = SubmissionRing
  import CQ = CompletionRing

  // ----- Counting -----

  /** Fewer than `n` numbers miss one below `n`. */
  lemma {:induction false} Missing(xs: seq<nat>, n: nat) returns (k: nat)
    requires |xs| < n
    ensures k < n && k !in xs
    decreases n
  {
    if n - 1 !in xs {
      k := n - 1;
    } else {
      var i :| 0 <= i < |xs| && xs[i] == n - 1;
      var rest := xs[..i] + xs[i + 1..];
      k := Missing(rest, n - 1);
      assert forall j :: 0 <= j < |xs| && j != i ==> xs[j] in rest by {
        forall j | 0 <= j < |xs| && j != i ensures xs[j] in rest {
          assert xs[j] == rest[if j < i then j else j - 1];
        }
      }
    }
  }

  // ----- How far a controller can get -----

  /** However the controller works, it completes no more than was announced, and never fills the ring. */
  lemma PostBound(s: System, waiting: bool, acts: seq<Action>)
    requires Inv(s, waiting)
    ensures s.sq.fetch < |s.sq.slots| && s.cq.tail < |s.cq.slots|
    ensures |Acts(s, acts).cq.posted| <= s.sq.rung && |Acts(s, acts).cq.posted| < s.cq.rung + |s.cq.slots|
  {
    InvBounds(s, waiting);
    ActsFrame(s, acts);
    ActsInv(s, acts, waiting);
    FinishedBound(Acts(s, acts), waiting);
  }

  /** The controller can always post one more completion within these bounds. */
  lemma PostMore(s: System, waiting: bool) returns (acts: seq<Action>)
    requires Inv(s, waiting) && |s.cq.posted| < s.sq.rung && |s.cq.posted| + 1 < s.cq.rung + |s.cq.slots|
    ensures s.sq.fetch < |s.sq.slots| && s.cq.tail < |s.cq.slots|
    ensures |Acts(s, acts).cq.posted| == |s.cq.posted| + 1
  {
    FinishedBound(s, waiting);
    if |s.finished| < |s.sq.fetched| {
      var k := Missing(s.finished, |s.sq.fetched|);
      acts := [Execute(k), Finish(k)];
      ExecuteFinish(s, waiting, k);
    } else {
      SQ.FetchInv(s.sq);
      FetchInv(s, waiting);
      var t := Act(s, Fetch);
      assert |t.sq.fetched| == |s.sq.fetched| + 1;
      var k := |s.sq.fetched|;
      ExecuteFinish(t, waiting, k);
      acts := [Fetch] + [Execute(k), Finish(k)];
      InvBounds(s, waiting);
      ActsAppend(s, [Fetch], [Execute(k), Finish(k)]);
      OneAct(s, Fetch);
    }
  }

  lemma OneAct(s: System, a: Action)
    requires s.sq.fetch < |s.sq.slots| && s.cq.tail < |s.cq.slots|
    ensures Acts(s, [a]) == Act(s, a)
  {
    assert [a][1..] == [];
  }

  lemma ExecuteFinish(s: System, waiting: bool, k: nat)
    requires Inv(s, waiting) && k < |s.sq.fetched| && k !in s.finished
    requires |s.cq.posted| + 1 < s.cq.rung + |s.cq.slots|
    ensures s.sq.fetch < |s.sq.slots| && s.cq.tail < |s.cq.slots|
    ensures |Acts(s, [Execute(k), Finish(k)]).cq.posted| == |s.cq.posted| + 1
  {
    InvBounds(s, waiting);
    CQ.CanPostIff(s.cq);
    hide Inv;
    var t := Act(s, Execute(k));
    assert t.cq == s.cq && t.sq == s.sq && k in t.executed && t.finished == s.finished;
    hide Transfer;
    OneAct(t, Finish(k));
    assert [Execute(k), Finish(k)][1..] == [Finish(k)];
    assert Acts(s, [Execute(k), Finish(k)]) == Acts(t, [Finish(k)]);
  }

  lemma {:induction false} PostUpTo(s: System, waiting: bool, target: nat) returns (acts: seq<Action>)
    requires Inv(s, waiting) && target <= s.sq.rung && target < s.cq.rung + |s.cq.slots|
    ensures s.sq.fetch < |s.sq.slots| && s.cq.tail < |s.cq.slots|
    ensures |Acts(s, acts).cq.posted| >= target
    decreases target - |s.cq.posted|
  {
    InvBounds(s, waiting);
    if |s.cq.posted| >= target {
      acts := [];
    } else {
      var first := PostMore(s, waiting);
      ActsFrame(s, first);
      ActsInv(s, first, waiting);
      var rest := PostUpTo(Acts(s, first), waiting, target);
      ActsAppend(s, first, rest);
      acts := first + rest;
    }
  }

  // ----- Waiting -----

  /** After these steps of the controller the poll of a wait for `n` completions succeeds. */
  ghost predicate Ends(s: System, n: nat, acts: seq<Action>)
    requires Inv(s, false) && 1 <= n <= |s.cq.slots|
  {
    var t := Acts(BeginWait(s, n), acts);
    t.cq.head < |t.cq.slots| && Poll(t).1.Some?
  }

  lemma EndsIff(s: System, n: nat, acts: seq<Action>)
    requires Inv(s, false) && 1 <= n <= |s.cq.slots|
    ensures Ends(s, n, acts) <==> s.seen + n <= |Acts(BeginWait(s, n), acts).cq.posted|
  {
    hide Inv, Poll, Acts;
    BeginWaitInv(s, n);
    var w := BeginWait(s, n);
    InvBounds(w, true);
    ActsFrame(w, acts);
    ActsInv(w, acts, true);
    InvBounds(Acts(w, acts), true);
    PollInv(Acts(w, acts), true);
  }

  /** With the head doorbell up to date, a wait for `n` completions can end, under some controller, if and
      only if at least `n` announced commands are outstanding and `n` is less than the ring's length: a
      controller that keeps to the doorbell never fills the ring. */
  lemma WaitCanEndIff(s: System, n: nat)
    requires Inv(s, false) && s.cq.rung == s.cq.pos && 1 <= n <= |s.cq.slots|
    ensures (exists acts :: Ends(s, n, acts)) <==> n < |s.cq.slots| && s.seen + n <= s.sq.rung
  {
    BeginWaitInv(s, n);
    var w := BeginWait(s, n);
    assert w.sq == s.sq && w.cq.rung == s.cq.rung && |w.cq.slots| == |s.cq.slots| && s.cq.pos == s.seen;
    hide BeginWait, Inv, Acts, Ends;
    if acts :| Ends(s, n, acts) {
      EndsIff(s, n, acts);
      PostBound(w, true, acts);
    }
    if n < |s.cq.slots| && s.seen + n <= s.sq.rung {
      var acts := PostUpTo(w, true, s.seen + n);
      EndsIff(s, n, acts);
    }
  }

  // ----- A controller that keeps up -----

  /** The completion ring has no room. */
  ghost predicate Full(s: System) {
    |s.cq.posted| + 1 == s.cq.rung + |s.cq.slots|
  }

  /** Everything announced has been completed, as far as the completion ring has room. */
  ghost predicate Served(s: System) {
    s.sq.rung <= |s.cq.posted| || Full(s)
  }

  /** These steps serve every state of a queue with up to `bound` commands. */
  ghost predicate Works(acts: seq<Action>, bound: nat) {
    forall s: System, waiting: bool :: Inv(s, waiting) && |s.sq.submitted| <= bound ==> Served(Acts(s, acts))
  }

  lemma WorksServes(acts: seq<Action>, bound: nat, s: System, waiting: bool)
    requires Works(acts, bound) && Inv(s, waiting) && |s.sq.submitted| <= bound
    ensures s.sq.fetch < |s.sq.slots| && s.cq.tail < |s.cq.slots| && Served(Acts(s, acts))
  {
    InvBounds(s, waiting);
  }

  /** Fetch everything, execute everything, then post every completion. */
  function Fetches(n: nat): seq<Action> {
    if n == 0 then [] else Fetches(n - 1) + [Fetch]
  }

  function Executes(n: nat): seq<Action> {
    if n == 0 then [] else Executes(n - 1) + [Execute(n - 1)]
  }

  function Finishes(n: nat): seq<Action> {
    if n == 0 then [] else Finishes(n - 1) + [Finish(n - 1)]
  }

  function Eager(bound: nat): seq<Action> {
    Fetches(bound) + (Executes(bound) + Finishes(bound))
  }

  lemma ActsThenOne(s: System, waiting: bool, acts: seq<Action>, a: Action)
    requires Inv(s, waiting)
    ensures s.sq.fetch < |s.sq.slots| && s.cq.tail < |s.cq.slots|
    ensures var t := Acts(s, acts);
      && t.sq.fetch < |t.sq.slots| && t.cq.tail < |t.cq.slots| && Inv(t, waiting)
      && Acts(s, acts + [a]) == Act(t, a)
  {
    InvBounds(s, waiting);
    ActsInv(s, acts, waiting);
    InvBounds(Acts(s, acts), waiting);
    hide Inv;
    ActsAppend(s, acts, [a]);
    OneAct(Acts(s, acts), a);
  }

  lemma NoActs(s: System)
    requires s.sq.fetch < |s.sq.slots| && s.cq.tail < |s.cq.slots|
    ensures Acts(s, []) == s
  {
  }

  lemma FetchOne(t: System, waiting: bool)
    requires Inv(t, waiting)
    ensures t.sq.fetch < |t.sq.slots| && t.cq.tail < |t.cq.slots|
    ensures |Act(t, Fetch).sq.fetched| == |t.sq.fetched| + if |t.sq.fetched| < t.sq.rung then 1 else 0
    ensures |t.sq.fetched| <= t.sq.rung
  {
    InvBounds(t, waiting);
    SQ.FetchInv(t.sq);
  }

  lemma ExecuteOne(t: System, k: nat)
    requires t.sq.fetch < |t.sq.slots| && t.cq.tail < |t.cq.slots|
    ensures var u := Act(t, Execute(k));
      && u.sq == t.sq && t.executed <= u.executed && (k < |t.sq.fetched| ==> k in u.executed)
  {
    hide Transfer;
  }

  lemma {:induction false} FetchesAll(s: System, waiting: bool, n: nat)
    requires Inv(s, waiting)
    ensures s.sq.fetch < |s.sq.slots| && s.cq.tail < |s.cq.slots|
    ensures |Acts(s, Fetches(n)).sq.fetched| >= n || |Acts(s, Fetches(n)).sq.fetched| == s.sq.rung
    decreases n
  {
    hide Inv, Acts, Act;
    InvBounds(s, waiting);
    if n == 0 {
    } else {
      FetchesAll(s, waiting, n - 1);
      ActsThenOne(s, waiting, Fetches(n - 1), Fetch);
      ActsFrame(s, Fetches(n - 1));
      FetchOne(Acts(s, Fetches(n - 1)), waiting);
    }
  }

  lemma {:induction false} ExecutesAll(s: System, waiting: bool, n: nat)
    requires Inv(s, waiting)
    ensures s.sq.fetch < |s.sq.slots| && s.cq.tail < |s.cq.slots|
    ensures Acts(s, Executes(n)).sq == s.sq
    ensures forall k :: 0 <= k < n && k < |s.sq.fetched| ==> k in Acts(s, Executes(n)).executed
    decreases n
  {
    hide Inv, Acts, Act;
    InvBounds(s, waiting);
    if n == 0 {
      NoActs(s);
    } else {
      ExecutesAll(s, waiting, n - 1);
      ActsThenOne(s, waiting, Executes(n - 1), Execute(n - 1));
      ExecuteOne(Acts(s, Executes(n - 1)), n - 1);
    }
  }

  lemma {:induction false} FinishesAll(s: System, waiting: bool, n: nat)
    requires Inv(s, waiting) && forall k :: 0 <= k < n && k < |s.sq.fetched| ==> k in s.executed
    ensures s.sq.fetch < |s.sq.slots| && s.cq.tail < |s.cq.slots|
    ensures var t := Acts(s, Finishes(n));
      && t.sq == s.sq && t.executed == s.executed
      && (Full(t) || forall k :: 0 <= k < n && k < |s.sq.fetched| ==> k in t.finished)
    decreases n
  {
    hide Inv, Acts, Act, Full;
    InvBounds(s, waiting);
    if n == 0 {
      NoActs(s);
    } else {
      FinishesAll(s, waiting, n - 1);
      ActsThenOne(s, waiting, Finishes(n - 1), Finish(n - 1));
      FinishOne(Acts(s, Finishes(n - 1)), waiting, n - 1);
    }
  }

  lemma FinishOne(t: System, waiting: bool, k: nat)
    requires Inv(t, waiting) && (k < |t.sq.fetched| ==> k in t.executed)
    ensures t.sq.fetch < |t.sq.slots| && t.cq.tail < |t.cq.slots|
    ensures var u := Act(t, Finish(k));
      && u.sq == t.sq && u.executed == t.executed && (forall j :: j in t.finished ==> j in u.finished)
      && (Full(t) ==> Full(u)) && (Full(t) || (k < |t.sq.fetched| ==> k in u.finished))
  {
    InvBounds(t, waiting);
    CQ.CanPostIff(t.cq);
  }

  /** The eager controller keeps up. */
  lemma EagerWorks(bound: nat)
    ensures Works(Eager(bound), bound)
  {
    forall s: System, waiting: bool | Inv(s, waiting) && |s.sq.submitted| <= bound
      ensures Served(Acts(s, Eager(bound)))
    {
      EagerServes(s, waiting, bound);
    }
  }

  lemma EagerServes(s: System, waiting: bool, bound: nat)
    requires Inv(s, waiting) && |s.sq.submitted| <= bound
    ensures s.sq.fetch < |s.sq.slots| && s.cq.tail < |s.cq.slots| && Served(Acts(s, Eager(bound)))
  {
    hide Inv, Acts, Full, Served, Fetches, Executes, Finishes;
    var f, e, d := Fetches(bound), Executes(bound), Finishes(bound);
    InvBounds(s, waiting);
    FetchesAll(s, waiting, bound);
    ActsInv(s, f, waiting);
    ActsFrame(s, f);
    ActsAppend(s, f, e + d);
    var t := Acts(s, f);
    InvBounds(t, waiting);
    AllFetched(t, waiting, s.sq.rung, bound);
    ExecutesAll(t, waiting, bound);
    ActsInv(t, e, waiting);
    ActsAppend(t, e, d);
    var u := Acts(t, e);
    FinishesAll(u, waiting, bound);
    ActsInv(u, d, waiting);
    AllFinished(Acts(u, d), waiting, bound);
  }

  lemma AllFetched(t: System, waiting: bool, rung: nat, bound: nat)
    requires Inv(t, waiting) && t.sq.rung == rung && |t.sq.submitted| <= bound
    requires |t.sq.fetched| >= bound || |t.sq.fetched| == rung
    ensures |t.sq.fetched| == t.sq.rung
  {
  }

  lemma AllFinished(v: System, waiting: bool, bound: nat)
    requires Inv(v, waiting) && |v.sq.fetched| == v.sq.rung && |v.sq.submitted| <= bound
    requires Full(v) || forall k :: 0 <= k < bound && k < |v.sq.fetched| ==> k in v.finished
    ensures Served(v)
  {
    if !Full(v) && |v.finished| < |v.sq.fetched| {
      var k := Missing(v.finished, |v.sq.fetched|);
    }
  }

  // ----- Schedules -----

  /** Every entry keeps up. */
  ghost predicate Diligent(schedule: seq<seq<Action>>, bound: nat) {
    forall i :: 0 <= i < |schedule| ==> Works(schedule[i], bound)
  }

  /** At least `points` scheduling points are left, and all are diligent for a queue that has had
      `commands` commands and gets up to `points` more. */
  ghost predicate Prompt(schedule: seq<seq<Action>>, commands: nat, points: nat) {
    |schedule| >= points && exists bound :: commands + points <= bound && Diligent(schedule, bound)
  }

  /** At most `points` scheduling points and commands were used. */
  ghost predicate Spent(before: seq<seq<Action>>, commands: nat, after: seq<seq<Action>>, commands': nat, points: nat) {
    && |after| <= |before| <= |after| + points && after == before[|before| - |after|..]
    && commands' <= commands + points
  }

  /** What is left after spending. */
  lemma StillPrompt(before: seq<seq<Action>>, commands: nat, after: seq<seq<Action>>, commands': nat,
                    points: nat, rest: nat)
    requires Prompt(before, commands, points + rest) && Spent(before, commands, after, commands', points)
    ensures Prompt(after, commands', rest)
  {
    var bound :| commands + (points + rest) <= bound && Diligent(before, bound);
    forall i | 0 <= i < |after| ensures Works(after[i], bound) {
      assert after[i] == before[|before| - |after| + i];
    }
    assert commands' + rest <= bound && Diligent(after, bound);
  }

  lemma PromptLess(schedule: seq<seq<Action>>, commands: nat, points: nat, less: nat)
    requires Prompt(schedule, commands, points) && less <= points
    ensures Prompt(schedule, commands, less)
  {
  }

  lemma SpentTwice(a: seq<seq<Action>>, l: nat, b: seq<seq<Action>>, m: nat, c: seq<seq<Action>>, n: nat,
                   i: nat, j: nat)
    requires Spent(a, l, b, m, i) && Spent(b, m, c, n, j)
    ensures Spent(a, l, c, n, i + j)
  {
  }

  lemma SpentNothing(schedule: seq<seq<Action>>, commands: nat)
    ensures Spent(schedule, commands, schedule, commands, 0)
  {
  }

  /** Such schedules exist. */
  lemma PromptExists(commands: nat, points: nat)
    ensures Prompt(seq(points, _ => Eager(commands + points)), commands, points)
  {
    EagerWorks(commands + points);
    assert Diligent(seq(points, _ => Eager(commands + points)), commands + points);
  }

  /** The entries of a schedule one after the other. */
  ghost function Flat(schedule: seq<seq<Action>>): seq<Action> {
    if schedule == [] then [] else Flat(schedule[..|schedule| - 1]) + schedule[|schedule| - 1]
  }

  lemma {:induction false} FlatSplit(schedule: seq<seq<Action>>)
    requires schedule != []
    ensures Flat(schedule) == schedule[0] + Flat(schedule[1..])
    decreases |schedule|
  {
    var n := |schedule| - 1;
    if n == 0 {
      assert schedule[..n] == [] && schedule[1..] == [];
      assert Flat(schedule) == [] + schedule[0] == schedule[0] + [];
    } else {
      var first, mid, last := schedule[0], Flat(schedule[1..n]), schedule[n];
      FlatSplit(schedule[..n]);
      assert schedule[..n][1..] == schedule[1..n] && schedule[1..][..n - 1] == schedule[1..n];
      assert schedule[1..][n - 1] == last;
      assert Flat(schedule[1..]) == mid + last;
      assert (first + mid) + last == first + (mid + last);
    }
  }

  /** Under a diligent schedule a wait ends at the first scheduling point. */
  lemma DiligentEnds(s: System, n: nat, schedule: seq<seq<Action>>, bound: nat)
    requires Inv(s, false) && s.cq.rung == s.cq.pos && s.sq.rung == |s.sq.submitted| == s.seen + n
    requires 1 <= n < |s.cq.slots|
    requires Diligent(schedule, bound) && |s.sq.submitted| <= bound && schedule != []
    ensures Ends(s, n, Flat(schedule))
  {
    BeginWaitInv(s, n);
    var w := BeginWait(s, n);
    assert w.sq == s.sq && w.cq.rung == s.cq.rung && |w.cq.slots| == |s.cq.slots| && s.cq.pos == s.seen;
    assert Works(schedule[0], bound);
    hide BeginWait, Inv, Acts, Ends, Works;
    WorksServes(schedule[0], bound, w, true);
    ActsFrame(w, schedule[0]);
    FlatSplit(schedule);
    ActsAppend(w, schedule[0], Flat(schedule[1..]));
    ActsFrame(Acts(w, schedule[0]), Flat(schedule[1..]));
    EndsIff(s, n, Flat(schedule));
  }

  /** The part of a schedule that a spin loop used: `acts` are its steps, and before the last entry the
      poll still failed. */
  ghost predicate SpinUsed(s: System, before: seq<seq<Action>>, after: seq<seq<Action>>, acts: seq<Action>) {
    && |after| <= |before| && after == before[|before| - |after|..]
    && acts == Flat(before[..|before| - |after|])
    && (|after| < |before| ==> Missed(s, Flat(before[..|before| - |after| - 1])))
  }

  ghost predicate Missed(s: System, acts: seq<Action>) {
    && s.sq.fetch < |s.sq.slots| && s.cq.tail < |s.cq.slots|
    && Acts(s, acts).cq.head < |Acts(s, acts).cq.slots| && Poll(Acts(s, acts)).1.None?
  }

  lemma SpinStart(s: System, schedule: seq<seq<Action>>)
    ensures SpinUsed(s, schedule, schedule, [])
  {
  }

  lemma SpinNext(s: System, before: seq<seq<Action>>, now: seq<seq<Action>>, acts: seq<Action>)
    requires SpinUsed(s, before, now, acts) && now != [] && Missed(s, acts)
    ensures SpinUsed(s, before, now[1..], acts + now[0])
  {
    var used := |before| - |now|;
    assert before[..used + 1][..used] == before[..used] && before[..used + 1][used] == now[0];
  }

  lemma DiligentPrefix(schedule: seq<seq<Action>>, n: nat, bound: nat)
    requires Diligent(schedule, bound) && n <= |schedule|
    ensures Diligent(schedule[..n], bound)
  {
    hide Works;
  }

  /** Under a prompt schedule the spin loop ends after at most one scheduling point. */
  lemma PromptSpin(s: System, n: nat, before: seq<seq<Action>>, after: seq<seq<Action>>, acts: seq<Action>)
    requires Inv(s, false) && s.cq.rung == s.cq.pos && s.sq.rung == |s.sq.submitted| == s.seen + n
    requires 1 <= n < |s.cq.slots| && Prompt(before, |s.sq.submitted| - 1, 1)
    requires SpinUsed(BeginWait(s, n), before, after, acts) && (!Ends(s, n, acts) ==> after == [])
    ensures Ends(s, n, acts) && |before| <= |after| + 1
  {
    hide Flat, Inv, Acts, Works, BeginWait, Poll;
    var bound :| |s.sq.submitted| - 1 + 1 <= bound && Diligent(before, bound);
    var used := |before| - |after|;
    if after == [] {
      assert before[..used] == before;
      DiligentEnds(s, n, before, bound);
    }
    if used >= 2 {
      var prefix := before[..used - 1];
      DiligentPrefix(before, used - 1, bound);
      DiligentEnds(s, n, prefix, bound);
    }
  }

  lemma {:induction false} FlatAppend(a: seq<seq<Action>>, b: seq<seq<Action>>)
    ensures Flat(a + b) == Flat(a) + Flat(b)
    decreases |b|
  {
    if b == [] {
      assert a + b == a;
    } else {
      var n := |b| - 1;
      FlatAppend(a, b[..n]);
      assert (a + b)[..|a + b| - 1] == a + b[..n] && (a + b)[|a + b| - 1] == b[n];
      assert (Flat(a) + Flat(b[..n])) + b[n] == Flat(a) + (Flat(b[..n]) + b[n]);
    }
  }

  /** More steps never undo the end of a wait. */
  lemma EndsMonotone(s: System, n: nat, a: seq<Action>, b: seq<Action>)
    requires Inv(s, false) && 1 <= n <= |s.cq.slots| && Ends(s, n, a)
    ensures Ends(s, n, a + b)
  {
    EndsIff(s, n, a);
    EndsIff(s, n, a + b);
    BeginWaitInv(s, n);
    var w := BeginWait(s, n);
    hide Inv, Acts, Ends, BeginWait;
    InvBounds(w, true);
    ActsAppend(w, a, b);
    ActsFrame(Acts(w, a), b);
  }

  /** The spin loop ends exactly when the steps of the whole schedule bring the awaited completion. */
  lemma SpinExact(s: System, n: nat, before: seq<seq<Action>>, after: seq<seq<Action>>, acts: seq<Action>)
    requires Inv(s, false) && 1 <= n <= |s.cq.slots|
    requires SpinUsed(BeginWait(s, n), before, after, acts) && (!Ends(s, n, acts) ==> after == [])
    ensures Ends(s, n, acts) <==> Ends(s, n, Flat(before))
  {
    var used := |before| - |after|;
    hide Flat, Inv, Acts, Ends;
    assert before == before[..used] + after;
    FlatAppend(before[..used], after);
    if Ends(s, n, acts) {
      EndsMonotone(s, n, acts, Flat(after));
    } else {
      assert before[..used] == before;
    }
  }
}
