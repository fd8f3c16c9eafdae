/** What a batch of commands does to disk and memory when the controller executes it in any order. */
module NvmeBatch {
  import opened Collections
  import opened NvmeTypes
  import opened NvmeSystem

  predicate OnDisk(c: Command, x: int) {
    DiskStart(c) <= x < DiskStart(c) + Bytes(c)
  }

  predicate InMemory(c: Command, a: nat) {
    PrpIndex(c, a).Some?
  }

  // ----- Write batches -----

  ghost predicate SeparateOnDisk(c: Command, d: Command) {
    forall x :: OnDisk(c, x) ==> !OnDisk(d, x)
  }

  /** The disk bytes of write `c` are those of its memory pages. */
  ghost predicate Written(c: Command, mem: seq<byte>, disk: seq<byte>) {
    forall x :: 0 <= x < |disk| && OnDisk(c, x) ==>
      PrpAddress(c, x - DiskStart(c)) < |mem| && disk[x] == mem[PrpAddress(c, x - DiskStart(c))]
  }

  ghost predicate Overwritten(cmds: seq<Command>, executed: set<nat>, first: nat, x: int) {
    exists k :: first <= k < |cmds| && k in executed && OnDisk(cmds[k], x)
  }

  /** The commands from `first` on are writes to separate disk bytes.  The disk holds the memory's
      bytes for every executed one, and is otherwise `disk0`. */
  ghost predicate WriteProgress(cmds: seq<Command>, executed: set<nat>, first: nat,
                                mem: seq<byte>, disk: seq<byte>, disk0: seq<byte>) {
    && first <= |cmds| && |disk| == |disk0|
    && (forall k :: 0 <= k < first ==> k in executed)
    && (forall k :: first <= k < |cmds| ==> cmds[k].opcode == WRITE && Executable(cmds[k], |mem|, |disk|))
    && (forall i, j :: first <= i < |cmds| && first <= j < |cmds| && i != j ==> SeparateOnDisk(cmds[i], cmds[j]))
    && (forall k :: first <= k < |cmds| && k in executed ==> Written(cmds[k], mem, disk))
    && (forall x :: 0 <= x < |disk0| && !Overwritten(cmds, executed, first, x) ==> disk[x] == disk0[x])
  }

  lemma TransferWrites(mem: seq<byte>, disk: seq<byte>, c: Command)
    requires c.opcode == WRITE && Executable(c, |mem|, |disk|)
    ensures var (m, d) := Transfer(mem, disk, c);
      && m == mem && Written(c, mem, d)
      && forall x :: 0 <= x < |disk| && !OnDisk(c, x) ==> d[x] == disk[x]
  {
    var d := Transfer(mem, disk, c).1;
    forall x | 0 <= x < |disk| && OnDisk(c, x)
      ensures PrpAddress(c, x - DiskStart(c)) < |mem| && d[x] == mem[PrpAddress(c, x - DiskStart(c))]
    {
      PrpInverse(c, |mem|, |disk|, PrpAddress(c, x - DiskStart(c)), x - DiskStart(c));
    }
  }

  lemma ExecuteWrite(cmds: seq<Command>, executed: set<nat>, first: nat,
                     mem: seq<byte>, disk: seq<byte>, disk0: seq<byte>, k: nat)
    requires WriteProgress(cmds, executed, first, mem, disk, disk0)
    requires first <= k < |cmds| && k !in executed
    ensures var (m, d) := Transfer(mem, disk, cmds[k]);
      m == mem && WriteProgress(cmds, executed + {k}, first, mem, d, disk0)
  {
    TransferWrites(mem, disk, cmds[k]);
    var d, ex := Transfer(mem, disk, cmds[k]).1, executed + {k};
    forall i | first <= i < |cmds| && i in ex ensures Written(cmds[i], mem, d) {
      if i != k {
        assert SeparateOnDisk(cmds[i], cmds[k]) && Written(cmds[i], mem, disk);
      }
    }
    forall x | 0 <= x < |disk0| && !Overwritten(cmds, ex, first, x) ensures d[x] == disk0[x] {
      assert !OnDisk(cmds[k], x);
      assert !Overwritten(cmds, executed, first, x);
    }
  }

  lemma AppendWrite(cmds: seq<Command>, executed: set<nat>, first: nat,
                    mem: seq<byte>, disk: seq<byte>, disk0: seq<byte>, c: Command)
    requires WriteProgress(cmds, executed, first, mem, disk, disk0) && |cmds| !in executed
    requires c.opcode == WRITE && Executable(c, |mem|, |disk|)
    requires forall i :: first <= i < |cmds| ==> SeparateOnDisk(cmds[i], c)
    ensures WriteProgress(cmds + [c], executed, first, mem, disk, disk0)
  {
    var ds := cmds + [c];
    forall i, j | first <= i < |ds| && first <= j < |ds| && i != j ensures SeparateOnDisk(ds[i], ds[j]) {
      assert SeparateOnDisk(ds[j], ds[i]) || SeparateOnDisk(ds[i], ds[j]);
    }
    forall x | Overwritten(cmds, executed, first, x) ensures Overwritten(ds, executed, first, x) {
      var k :| first <= k < |cmds| && k in executed && OnDisk(cmds[k], x);
      assert ds[k] == cmds[k];
    }
  }

  // ----- Read batches -----

  ghost predicate SeparateInMemory(c: Command, d: Command) {
    forall a :: InMemory(c, a) ==> !InMemory(d, a)
  }

  /** The memory bytes of read `c` are those of its disk blocks. */
  ghost predicate Loaded(c: Command, mem: seq<byte>, disk: seq<byte>) {
    forall a: nat :: a < |mem| && InMemory(c, a) ==>
      DiskStart(c) + PrpIndex(c, a).value < |disk| && mem[a] == disk[DiskStart(c) + PrpIndex(c, a).value]
  }

  ghost predicate Filled(cmds: seq<Command>, executed: set<nat>, first: nat, a: nat) {
    exists k :: first <= k < |cmds| && k in executed && InMemory(cmds[k], a)
  }

  /** The commands from `first` on are reads into separate memory bytes.  Memory holds the disk's
      bytes for every executed one, and is otherwise `mem0`. */
  ghost predicate ReadProgress(cmds: seq<Command>, executed: set<nat>, first: nat,
                               mem: seq<byte>, disk: seq<byte>, mem0: seq<byte>) {
    && first <= |cmds| && |mem| == |mem0|
    && (forall k :: 0 <= k < first ==> k in executed)
    && (forall k :: first <= k < |cmds| ==> cmds[k].opcode == READ && Executable(cmds[k], |mem|, |disk|))
    && (forall i, j :: first <= i < |cmds| && first <= j < |cmds| && i != j ==> SeparateInMemory(cmds[i], cmds[j]))
    && (forall k :: first <= k < |cmds| && k in executed ==> Loaded(cmds[k], mem, disk))
    && (forall a: nat :: a < |mem0| && !Filled(cmds, executed, first, a) ==> mem[a] == mem0[a])
  }

  lemma TransferReads(mem: seq<byte>, disk: seq<byte>, c: Command)
    requires c.opcode == READ && Executable(c, |mem|, |disk|)
    ensures var (m, d) := Transfer(mem, disk, c);
      && d == disk && Loaded(c, m, disk)
      && forall a: nat :: a < |mem| && !InMemory(c, a) ==> m[a] == mem[a]
  {
  }

  lemma ExecuteRead(cmds: seq<Command>, executed: set<nat>, first: nat,
                    mem: seq<byte>, disk: seq<byte>, mem0: seq<byte>, k: nat)
    requires ReadProgress(cmds, executed, first, mem, disk, mem0)
    requires first <= k < |cmds| && k !in executed
    ensures var (m, d) := Transfer(mem, disk, cmds[k]);
      d == disk && ReadProgress(cmds, executed + {k}, first, m, disk, mem0)
  {
    TransferReads(mem, disk, cmds[k]);
    var m, ex := Transfer(mem, disk, cmds[k]).0, executed + {k};
    forall i | first <= i < |cmds| && i in ex ensures Loaded(cmds[i], m, disk) {
      if i != k {
        assert SeparateInMemory(cmds[i], cmds[k]) && Loaded(cmds[i], mem, disk);
      }
    }
    forall a: nat | a < |mem0| && !Filled(cmds, ex, first, a) ensures m[a] == mem0[a] {
      assert !InMemory(cmds[k], a);
      assert !Filled(cmds, executed, first, a);
    }
  }

  lemma AppendRead(cmds: seq<Command>, executed: set<nat>, first: nat,
                   mem: seq<byte>, disk: seq<byte>, mem0: seq<byte>, c: Command)
    requires ReadProgress(cmds, executed, first, mem, disk, mem0) && |cmds| !in executed
    requires c.opcode == READ && Executable(c, |mem|, |disk|)
    requires forall i :: first <= i < |cmds| ==> SeparateInMemory(cmds[i], c)
    ensures ReadProgress(cmds + [c], executed, first, mem, disk, mem0)
  {
    var ds := cmds + [c];
    forall i, j | first <= i < |ds| && first <= j < |ds| && i != j ensures SeparateInMemory(ds[i], ds[j]) {
      assert SeparateInMemory(ds[j], ds[i]) || SeparateInMemory(ds[i], ds[j]);
    }
    forall a: nat | Filled(cmds, executed, first, a) ensures Filled(ds, executed, first, a) {
      var k :| first <= k < |cmds| && k in executed && InMemory(cmds[k], a);
      assert ds[k] == cmds[k];
    }
  }

  // ----- In the system -----

  ghost predicate Writing(s: System, first: nat, disk0: seq<byte>) {
    WriteProgress(s.sq.submitted, s.executed, first, s.mem, s.disk, disk0)
  }

  ghost predicate Reading(s: System, first: nat, mem0: seq<byte>) {
    ReadProgress(s.sq.submitted, s.executed, first, s.mem, s.disk, mem0)
  }

  lemma FetchedIsSubmitted(s: System, waiting: bool, k: nat)
    requires Inv(s, waiting) && k < |s.sq.fetched|
    ensures k < |s.sq.submitted| && s.sq.fetched[k] == s.sq.submitted[k]
  {
  }

  lemma ActWriting(s: System, a: Action, waiting: bool, first: nat, disk0: seq<byte>)
    requires Inv(s, waiting) && Writing(s, first, disk0)
    ensures Writing(Act(s, a), first, disk0)
    ensures Act(s, a).mem == s.mem && Act(s, a).sq.submitted == s.sq.submitted
  {
    if a.Execute? && a.k < |s.sq.fetched| && a.k !in s.executed {
      FetchedIsSubmitted(s, waiting, a.k);
      ExecuteWrite(s.sq.submitted, s.executed, first, s.mem, s.disk, disk0, a.k);
    }
  }

  lemma ActReading(s: System, a: Action, waiting: bool, first: nat, mem0: seq<byte>)
    requires Inv(s, waiting) && Reading(s, first, mem0)
    ensures Reading(Act(s, a), first, mem0)
    ensures Act(s, a).disk == s.disk && Act(s, a).sq.submitted == s.sq.submitted
  {
    if a.Execute? && a.k < |s.sq.fetched| && a.k !in s.executed {
      FetchedIsSubmitted(s, waiting, a.k);
      ExecuteRead(s.sq.submitted, s.executed, first, s.mem, s.disk, mem0, a.k);
    }
  }

  /** However the controller orders its work, progress of a write batch is kept. */
  lemma {:induction false} ActsWriting(s: System, actions: seq<Action>, waiting: bool, first: nat, disk0: seq<byte>)
    requires Inv(s, waiting) && Writing(s, first, disk0)
    ensures Writing(Acts(s, actions), first, disk0)
    ensures Acts(s, actions).mem == s.mem && Acts(s, actions).sq.submitted == s.sq.submitted
    decreases |actions|
  {
    if actions == [] {
    } else {
      ActInv(s, actions[0], waiting);
      ActWriting(s, actions[0], waiting, first, disk0);
      ActsWriting(Act(s, actions[0]), actions[1..], waiting, first, disk0);
    }
  }

  lemma {:induction false} ActsReading(s: System, actions: seq<Action>, waiting: bool, first: nat, mem0: seq<byte>)
    requires Inv(s, waiting) && Reading(s, first, mem0)
    ensures Reading(Acts(s, actions), first, mem0)
    ensures Acts(s, actions).disk == s.disk && Acts(s, actions).sq.submitted == s.sq.submitted
    decreases |actions|
  {
    if actions == [] {
    } else {
      ActInv(s, actions[0], waiting);
      ActReading(s, actions[0], waiting, first, mem0);
      ActsReading(Act(s, actions[0]), actions[1..], waiting, first, mem0);
    }
  }

  /** Progress of a batch in either direction: the side being copied from does not change. */
  ghost predicate Progress(s: System, op: nat, first: nat, mem0: seq<byte>, disk0: seq<byte>) {
    if op == WRITE then Writing(s, first, disk0) && s.mem == mem0
    else Reading(s, first, mem0) && s.disk == disk0
  }

  lemma StartProgress(s: System, op: nat)
    requires Quiet(s)
    ensures Progress(s, op, |s.sq.submitted|, s.mem, s.disk)
  {
    QuietMeansDone(s);
  }

  lemma ActsProgress(s: System, actions: seq<Action>, waiting: bool, op: nat, first: nat,
                     mem0: seq<byte>, disk0: seq<byte>)
    requires Inv(s, waiting) && Progress(s, op, first, mem0, disk0)
    ensures Progress(Acts(s, actions), op, first, mem0, disk0)
  {
    if op == WRITE {
      ActsWriting(s, actions, waiting, first, disk0);
    } else {
      ActsReading(s, actions, waiting, first, mem0);
    }
  }

  lemma SubmitProgress(s: System, c: Command, op: nat, first: nat, mem0: seq<byte>, disk0: seq<byte>)
    requires Inv(s, false) && Progress(s, op, first, mem0, disk0)
    requires op in {WRITE, READ} && c.opcode == op && Executable(c, |s.mem|, |s.disk|)
    requires forall i :: first <= i < |s.sq.submitted| ==>
      SeparateOnDisk(s.sq.submitted[i], c) && SeparateInMemory(s.sq.submitted[i], c)
    ensures Progress(Submit(s, c), op, first, mem0, disk0)
  {
    assert |s.sq.submitted| !in s.executed;
    if op == WRITE {
      AppendWrite(s.sq.submitted, s.executed, first, s.mem, s.disk, disk0, c);
    } else {
      AppendRead(s.sq.submitted, s.executed, first, s.mem, s.disk, mem0, c);
    }
  }
}
